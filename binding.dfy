/**
 * The filling half of the DTO engine as functions on DTO states: make,
 * fill, its per-property step, buildObjectValue and cast. A nested DTO is
 * represented by its state; the imperative objects of module Engine are
 * proved to follow these functions.
 */
module Binding {
  import opened PhpValues
  import opened Naming
  import opened Schema

  /** One DTO instance: its class, its configuration, and its initialised public properties. */
  datatype DtoState = DtoState(cls: string, config: Config, props: map<string, Member>)

  /** What an initialised property holds: plain data, or a nested DTO built by make. */
  datatype Member = Plain(v: Value) | Nested(dto: DtoState)

  /** InvalidArgumentException("{$class} is not subclass of AbstractDataTransferObject") */
  datatype Error = NotDtoSubclass(cls: string)

  datatype Result<+T> = Ok(value: T) | Err(error: Error)

  /** The state fill leaves behind, and the exception it throws, if any. */
  datatype FillResult = FillResult(state: DtoState, thrown: Option<Error>)

  /** Property p of a state: None while it is uninitialised. */
  function PropOf(s: DtoState, p: string): Option<Member> {
    if p in s.props then Some(s.props[p]) else None
  }

  /** The DTO and every DTO nested in it are of declared classes. */
  predicate Declared(decls: ClassTable, s: DtoState)
    decreases s
  {
    && s.cls in decls
    && forall k | k in s.props && s.props[k].Nested? :: Declared(decls, s.props[k].dto)
  }

  /**
   * A new instance as the container makes it: the class's configuration,
   * and only the public properties that have an initial value initialised.
   */
  function Fresh(cls: string, decl: ClassDecl): (s: DtoState)
    ensures s.cls == cls && s.config == decl.config
    ensures forall k :: k in s.props ==> s.props[k].Plain?
    ensures forall k :: k in s.props <==>
      exists p :: p in decl.properties && p.name == k && p.visibility == Public && InitialValue(p).Some?
    ensures UniqueDeclNames(decl.properties) ==>
      forall p :: p in decl.properties && p.visibility == Public && InitialValue(p).Some? ==>
        p.name in s.props && s.props[p.name] == Plain(InitialValue(p).value)
  {
    var init := InitialValues(decl.properties);
    DtoState(cls, decl.config, map k | k in init :: Plain(init[k]))
  }

  /**
   * cast(): null stays null on a nullable type; otherwise int, bool and
   * string convert the value, and any other type passes it through.
   */
  function Cast(v: Value, t: TypeDesc): (r: Value)
    requires t.Named?
    ensures t.allowsNull && v.Null? ==> r.Null?
    ensures t.name == "int" ==> r.Int? || (r.Null? && t.allowsNull)
    ensures t.name == "bool" ==> r.Bool? || (r.Null? && t.allowsNull)
    ensures t.name == "string" ==> r.Str? || (r.Null? && t.allowsNull)
    ensures t.name !in {"int", "bool", "string"} ==> r == v
    ensures (t.name == "int" && v.Int?) || (t.name == "bool" && v.Bool?) || (t.name == "string" && v.Str?) ==> r == v
  {
    if t.allowsNull && v.Null? then Null
    else if t.name == "int" then Int(IntOf(v))
    else if t.name == "bool" then Bool(BoolOf(v))
    else if t.name == "string" then Str(StringOf(v))
    else v
  }

  /**
   * The typed-property step of fill: on a type other than string, null or
   * the empty string becomes null when the type allows it and is skipped
   * otherwise (None); everything else goes through cast.
   */
  function Coerce(v: Value, t: TypeDesc): (r: Option<Value>)
    requires t.Named?
    ensures r.None? <==> t.name != "string" && !t.allowsNull && (v.Null? || v == Str(""))
    ensures t.name != "string" && t.allowsNull && (v.Null? || v == Str("")) ==> r == Some(Null)
    ensures t.name == "string" || !(v.Null? || v == Str("")) ==> r == Some(Cast(v, t))
  {
    if t.name != "string" && (v.Null? || v == Str("")) then
      if t.allowsNull then Some(Cast(Null, t)) else None
    else Some(Cast(v, t))
  }

  /**
   * Where fill reads property `name` from: the snake_case key when
   * _toUnderScore is set and that key exists, else the property name
   * itself; None when neither key exists.
   */
  function SourceIndex(toUnderScore: bool, name: string, data: seq<Entry>): (r: Option<nat>)
    ensures r.Some? ==> r.value < |data|
  {
    var paramName := if toUnderScore then SnakeCase(name) else name;
    if toUnderScore && HasKey(data, paramName) then IndexOf(data, paramName)
    else IndexOf(data, name)
  }

  /** The value fill reads for property `name`, if any. */
  function SourceValue(toUnderScore: bool, name: string, data: seq<Entry>): (r: Option<Value>)
    ensures r.Some? ==> (toUnderScore && Get(data, SnakeCase(name)) == r) || Get(data, name) == r
    ensures r.None? <==> !HasKey(data, name) && !(toUnderScore && HasKey(data, SnakeCase(name)))
  {
    match SourceIndex(toUnderScore, name, data)
    case Some(i) => Some(data[i].val)
    case None => None
  }

  /**
   * What fill does with the value it read for a property of type t: the
   * member to store, nothing (Ok(None): the property is skipped), or an
   * exception from buildObjectValue.
   */
  function Bind(decls: ClassTable, t: TypeDesc, value: Value): (r: Result<Option<Member>>)
    ensures r.Ok? && r.value.Some? && r.value.value.Nested? ==> Declared(decls, r.value.value.dto)
    ensures r.Ok? && r.value.Some? && r.value.value.Nested? ==> value.Arr? && t.Named? && !t.isBuiltin
    ensures r.Err? ==> value.Arr? && t.Named? && !t.isBuiltin
    ensures r == Ok(None) <==> t.Named? && t.isBuiltin && Coerce(value, t).None?
    decreases value, 5
  {
    if t.Untyped? then Ok(Some(Plain(value)))
    else if !t.isBuiltin then
      match BuildObjectValue(decls, t.name, value)
      case Err(e) => Err(e)
      case Ok(m) => Ok(Some(m))
    else
      match Coerce(value, t)
      case None => Ok(None)
      case Some(c) => Ok(Some(Plain(c)))
  }

  /** One pass of fill's loop, for the property described by d. */
  function FillProperty(decls: ClassTable, o: DtoState, d: Descriptor, data: seq<Entry>): (r: FillResult)
    ensures r.state.cls == o.cls && r.state.config == o.config
    ensures r.state == o || (d.name in r.state.props && r.state == o.(props := o.props[d.name := r.state.props[d.name]]))
    ensures r.thrown.Some? ==> r.state == o
    ensures Declared(decls, o) ==> Declared(decls, r.state)
    decreases Arr(data), 0
  {
    var src := SourceValue(o.config.toUnderScore, d.name, data);
    if d.name in o.config.ignore || src.None? then FillResult(o, None)
    else
      match Bind(decls, d.declared, src.value)
      case Err(e) => FillResult(o, Some(e))
      case Ok(None) => FillResult(o, None)
      case Ok(Some(m)) => FillResult(o.(props := o.props[d.name := m]), None)
  }

  /** fill's loop over the property list, stopping at the first exception. */
  function FillFrom(decls: ClassTable, descs: seq<Descriptor>, o: DtoState, data: seq<Entry>): (r: FillResult)
    ensures r.state.cls == o.cls && r.state.config == o.config
    ensures o.props.Keys <= r.state.props.Keys
    ensures Declared(decls, o) ==> Declared(decls, r.state)
    decreases Arr(data), 1, |descs|
  {
    if descs == [] then FillResult(o, None)
    else
      var step := FillProperty(decls, o, descs[0], data);
      if step.thrown.Some? then step
      else FillFrom(decls, descs[1..], step.state, data)
  }

  /** fill($data): nothing happens on an empty array, otherwise the loop over the class's properties. */
  function Fill(decls: ClassTable, o: DtoState, data: seq<Entry>): (r: FillResult)
    requires o.cls in decls
    ensures r.state.cls == o.cls && r.state.config == o.config
    ensures o.props.Keys <= r.state.props.Keys
    ensures Declared(decls, o) ==> Declared(decls, r.state)
    decreases Arr(data), 2
  {
    if |data| == 0 then FillResult(o, None)
    else FillFrom(decls, PublicProperties(decls[o.cls].properties), o, data)
  }

  /** Class::make($data): a new instance filled from data; an exception from fill propagates. */
  function Make(decls: ClassTable, cls: string, data: seq<Entry>): (r: Result<DtoState>)
    requires cls in decls
    ensures r.Ok? ==> r.value.cls == cls && r.value.config == decls[cls].config
    ensures r.Ok? ==> Declared(decls, r.value)
    decreases Arr(data), 3
  {
    var filled := Fill(decls, Fresh(cls, decls[cls]), data);
    if filled.thrown.Some? then Err(filled.thrown.value) else Ok(filled.state)
  }

  /**
   * buildObjectValue($class, $data): data that is not an array comes back
   * unchanged, an array for a class that is not a DTO subclass throws, and
   * an array for a DTO class is made into an instance of that class.
   */
  function BuildObjectValue(decls: ClassTable, cls: string, data: Value): (r: Result<Member>)
    ensures r.Ok? && data.Arr? ==> r.value.Nested? && r.value.dto.cls == cls && Declared(decls, r.value.dto)
    decreases data, 4
  {
    if !data.Arr? then Ok(Plain(data))
    else if !(cls in decls && decls[cls].isDto) then Err(NotDtoSubclass(cls))
    else match Make(decls, cls, data.entries)
      case Ok(s) => Ok(Nested(s))
      case Err(e) => Err(e)
  }

  /** A value already of a property's declared type, as far as the value model can tell. */
  predicate OfType(v: Value, t: TypeDesc) {
    match t
    case Untyped => true
    case Named(n, allowsNull, _) =>
      || (v.Null? && allowsNull)
      || (n == "int" && v.Int?)
      || (n == "bool" && v.Bool?)
      || (n == "string" && v.Str?)
  }

  /** What fill stores from a typed builtin property is of that type, and null only where the type allows it. */
  lemma CoerceTypeSafe(v: Value, t: TypeDesc)
    requires t.Named? && t.name in {"int", "bool", "string"}
    ensures Coerce(v, t).Some? ==> OfType(Coerce(v, t).value, t)
    ensures Coerce(v, t).None? <==> t.name != "string" && !t.allowsNull && (v.Null? || v == Str(""))
  {
  }

  /** A value that already has the declared type is stored unchanged. */
  lemma CoerceKeepsTypedValue(v: Value, t: TypeDesc)
    requires t.Named? && OfType(v, t)
    ensures Coerce(v, t) == Some(v)
  {
  }

  /** Coercing a coerced value again changes nothing. */
  lemma CoerceIdempotent(v: Value, t: TypeDesc)
    requires t.Named? && Coerce(v, t).Some?
    ensures Coerce(Coerce(v, t).value, t) == Coerce(v, t)
  {
  }

  /** A decimal numeral given for an int property binds as the integer it denotes. */
  lemma CoerceNumericString(i: int, t: TypeDesc)
    requires t.Named? && t.name == "int"
    requires PHP_INT_MIN <= i <= PHP_INT_MAX
    ensures Coerce(Str(DecimalString(i)), t) == Some(Int(i))
  {
    assert DecimalString(i) != "";
    IntOfDecimalString(i);
  }

  /** The snake_case key is preferred when conversion is on and the key is present; otherwise the property name is looked up. */
  lemma SourceValueChoice(toUnderScore: bool, name: string, data: seq<Entry>)
    ensures toUnderScore && HasKey(data, SnakeCase(name)) ==> SourceValue(toUnderScore, name, data) == Get(data, SnakeCase(name))
    ensures !(toUnderScore && HasKey(data, SnakeCase(name))) ==> SourceValue(toUnderScore, name, data) == Get(data, name)
    ensures SourceValue(toUnderScore, name, data).None? <==> !HasKey(data, name) && !(toUnderScore && HasKey(data, SnakeCase(name)))
  {
  }

  /** The step for one property only looks at that property's old value. */
  lemma FillPropertyLocal(decls: ClassTable, o1: DtoState, o2: DtoState, d: Descriptor, data: seq<Entry>)
    requires o1.config == o2.config && PropOf(o1, d.name) == PropOf(o2, d.name)
    ensures PropOf(FillProperty(decls, o1, d, data).state, d.name) == PropOf(FillProperty(decls, o2, d, data).state, d.name)
    ensures FillProperty(decls, o1, d, data).thrown == FillProperty(decls, o2, d, data).thrown
  {
  }

  /**
   * fill leaves property p alone when no descriptor carries its name, when
   * p is in _ignore, or when the data holds neither of its keys.
   */
  lemma {:induction false} FillFromLeaves(decls: ClassTable, descs: seq<Descriptor>, o: DtoState, data: seq<Entry>, p: string)
    requires || (forall j :: 0 <= j < |descs| ==> descs[j].name != p)
             || p in o.config.ignore
             || SourceIndex(o.config.toUnderScore, p, data).None?
    ensures PropOf(FillFrom(decls, descs, o, data).state, p) == PropOf(o, p)
    decreases |descs|
  {
    if descs != [] {
      var step := FillProperty(decls, o, descs[0], data);
      assert PropOf(step.state, p) == PropOf(o, p);
      if step.thrown.None? {
        FillFromLeaves(decls, descs[1..], step.state, data, p);
      }
    }
  }

  /**
   * With distinct property names and no exception, what fill leaves in
   * property descs[i] is what the step for descs[i] alone would leave.
   */
  lemma {:induction false} FillFromEffect(decls: ClassTable, descs: seq<Descriptor>, o: DtoState, data: seq<Entry>, i: nat)
    requires UniqueNames(descs) && i < |descs|
    requires FillFrom(decls, descs, o, data).thrown.None?
    ensures PropOf(FillFrom(decls, descs, o, data).state, descs[i].name)
         == PropOf(FillProperty(decls, o, descs[i], data).state, descs[i].name)
    decreases |descs|
  {
    var p := descs[i].name;
    var step := FillProperty(decls, o, descs[0], data);
    assert step.thrown.None?;
    if i == 0 {
      FillFromLeaves(decls, descs[1..], step.state, data, p);
    } else {
      assert UniqueNames(descs[1..]) by {
        forall a, b | 0 <= a < b < |descs[1..]| ensures descs[1..][a].name != descs[1..][b].name {
          assert descs[1..][a] == descs[a + 1] && descs[1..][b] == descs[b + 1];
        }
      }
      assert descs[1..][i - 1] == descs[i];
      FillFromEffect(decls, descs[1..], step.state, data, i - 1);
      assert descs[0].name != p;
      FillPropertyLocal(decls, step.state, o, descs[i], data);
    }
  }

  /** The property list of a DTO's class. */
  function PropertyList(decls: ClassTable, o: DtoState): seq<Descriptor>
    requires o.cls in decls
  {
    PublicProperties(decls[o.cls].properties)
  }

  /** The fill lemmas' UniqueNames(PropertyList(..)) follows from PHP's rule on declared names. */
  lemma PropertyListUnique(decls: ClassTable, o: DtoState)
    requires o.cls in decls && UniqueDeclNames(decls[o.cls].properties)
    ensures UniqueNames(PropertyList(decls, o))
  {
    PublicPropertiesUnique(decls[o.cls].properties);
  }

  /** fill on empty data, or for an ignored property, or with neither key present, leaves the property as it was. */
  lemma FillUntouched(decls: ClassTable, o: DtoState, data: seq<Entry>, p: string)
    requires o.cls in decls
    requires |data| == 0 || p in o.config.ignore || SourceValue(o.config.toUnderScore, p, data).None?
    ensures PropOf(Fill(decls, o, data).state, p) == PropOf(o, p)
  {
    if |data| > 0 {
      FillFromLeaves(decls, PropertyList(decls, o), o, data, p);
    }
  }

  /** fill($data) on empty data changes nothing and throws nothing. */
  lemma FillEmptyData(decls: ClassTable, o: DtoState)
    requires o.cls in decls
    ensures Fill(decls, o, []) == FillResult(o, None)
  {
  }

  /** A property that is not in the class's public property list keeps its value. */
  lemma FillOnlyListedProperties(decls: ClassTable, o: DtoState, data: seq<Entry>, p: string)
    requires o.cls in decls
    requires forall d :: d in PropertyList(decls, o) ==> d.name != p
    ensures PropOf(Fill(decls, o, data).state, p) == PropOf(o, p)
  {
    if |data| > 0 {
      var ds := PropertyList(decls, o);
      assert forall j :: 0 <= j < |ds| ==> ds[j] in ds;
      FillFromLeaves(decls, ds, o, data, p);
    }
  }

  /** The state fill leaves in listed property i, with distinct names and no exception. */
  lemma FillEffect(decls: ClassTable, o: DtoState, data: seq<Entry>, i: nat)
    requires o.cls in decls
    requires UniqueNames(PropertyList(decls, o)) && i < |PropertyList(decls, o)|
    requires Fill(decls, o, data).thrown.None?
    ensures var d := PropertyList(decls, o)[i];
      PropOf(Fill(decls, o, data).state, d.name) == PropOf(FillProperty(decls, o, d, data).state, d.name)
  {
    var d := PropertyList(decls, o)[i];
    if |data| == 0 {
      assert SourceIndex(o.config.toUnderScore, d.name, data).None?;
    } else {
      FillFromEffect(decls, PropertyList(decls, o), o, data, i);
    }
  }

  /**
   * An untyped listed property receives the raw value fill reads for it:
   * from the snake_case key when conversion is on and that key exists,
   * from the property name otherwise.
   */
  lemma FillUntypedProperty(decls: ClassTable, o: DtoState, data: seq<Entry>, i: nat)
    requires o.cls in decls
    requires UniqueNames(PropertyList(decls, o)) && i < |PropertyList(decls, o)|
    requires PropertyList(decls, o)[i].declared.Untyped?
    requires PropertyList(decls, o)[i].name !in o.config.ignore
    requires Fill(decls, o, data).thrown.None?
    ensures var p := PropertyList(decls, o)[i].name;
      && (o.config.toUnderScore && HasKey(data, SnakeCase(p)) ==>
            PropOf(Fill(decls, o, data).state, p) == Some(Plain(Get(data, SnakeCase(p)).value)))
      && (!(o.config.toUnderScore && HasKey(data, SnakeCase(p))) && HasKey(data, p) ==>
            PropOf(Fill(decls, o, data).state, p) == Some(Plain(Get(data, p).value)))
  {
    var p := PropertyList(decls, o)[i].name;
    FillEffect(decls, o, data, i);
    SourceValueChoice(o.config.toUnderScore, p, data);
  }

  /**
   * The empty-input policy: for a builtin type other than string, null or
   * "" stores null when the type is nullable and leaves the property as it
   * was otherwise.
   */
  lemma FillEmptyInputPolicy(decls: ClassTable, o: DtoState, data: seq<Entry>, i: nat)
    requires o.cls in decls
    requires UniqueNames(PropertyList(decls, o)) && i < |PropertyList(decls, o)|
    requires var d := PropertyList(decls, o)[i];
      d.declared.Named? && d.declared.isBuiltin && d.declared.name != "string" && d.name !in o.config.ignore
    requires var v := SourceValue(o.config.toUnderScore, PropertyList(decls, o)[i].name, data);
      v == Some(Null) || v == Some(Str(""))
    requires Fill(decls, o, data).thrown.None?
    ensures var d := PropertyList(decls, o)[i];
      PropOf(Fill(decls, o, data).state, d.name) == if d.declared.allowsNull then Some(Plain(Null)) else PropOf(o, d.name)
  {
    FillEffect(decls, o, data, i);
  }

  /** Otherwise a builtin-typed property receives the value cast to its type. */
  lemma FillCastsValue(decls: ClassTable, o: DtoState, data: seq<Entry>, i: nat, v: Value)
    requires o.cls in decls
    requires UniqueNames(PropertyList(decls, o)) && i < |PropertyList(decls, o)|
    requires var d := PropertyList(decls, o)[i];
      d.declared.Named? && d.declared.isBuiltin && d.name !in o.config.ignore
    requires SourceValue(o.config.toUnderScore, PropertyList(decls, o)[i].name, data) == Some(v)
    requires PropertyList(decls, o)[i].declared.name == "string" || !(v.Null? || v == Str(""))
    requires Fill(decls, o, data).thrown.None?
    ensures var d := PropertyList(decls, o)[i];
      PropOf(Fill(decls, o, data).state, d.name) == Some(Plain(Cast(v, d.declared)))
  {
    FillEffect(decls, o, data, i);
  }

  /**
   * A property typed with a class: an array is made into an instance of
   * that class (when it is a DTO class), anything else is stored as it is.
   */
  lemma FillNestedValue(decls: ClassTable, o: DtoState, data: seq<Entry>, i: nat, v: Value)
    requires o.cls in decls
    requires UniqueNames(PropertyList(decls, o)) && i < |PropertyList(decls, o)|
    requires var d := PropertyList(decls, o)[i];
      d.declared.Named? && !d.declared.isBuiltin && d.name !in o.config.ignore
    requires SourceValue(o.config.toUnderScore, PropertyList(decls, o)[i].name, data) == Some(v)
    requires Fill(decls, o, data).thrown.None?
    ensures var d := PropertyList(decls, o)[i];
      && (!v.Arr? ==> PropOf(Fill(decls, o, data).state, d.name) == Some(Plain(v)))
      && (v.Arr? ==>
            && d.declared.name in decls && decls[d.declared.name].isDto
            && Make(decls, d.declared.name, v.entries).Ok?
            && PropOf(Fill(decls, o, data).state, d.name) == Some(Nested(Make(decls, d.declared.name, v.entries).value)))
  {
    var ds := PropertyList(decls, o);
    var t := ds[i].declared;
    FillEffect(decls, o, data, i);
    var built := BuildObjectValue(decls, t.name, v);
    assert Bind(decls, t, v) == if built.Err? then Err(built.error) else Ok(Some(built.value));
    if v.Arr? {
      FillFromEffectThrown(decls, ds, o, data, i);
    }
  }

  /** When the loop throws nothing, none of its steps throws. */
  lemma {:induction false} FillFromEffectThrown(decls: ClassTable, descs: seq<Descriptor>, o: DtoState, data: seq<Entry>, i: nat)
    requires UniqueNames(descs) && i < |descs|
    requires FillFrom(decls, descs, o, data).thrown.None?
    ensures FillProperty(decls, o, descs[i], data).thrown.None?
    decreases |descs|
  {
    var step := FillProperty(decls, o, descs[0], data);
    if i > 0 {
      assert UniqueNames(descs[1..]) by {
        forall a, b | 0 <= a < b < |descs[1..]| ensures descs[1..][a].name != descs[1..][b].name {
          assert descs[1..][a] == descs[a + 1] && descs[1..][b] == descs[b + 1];
        }
      }
      assert descs[1..][i - 1] == descs[i];
      FillFromEffectThrown(decls, descs[1..], step.state, data, i - 1);
      FillPropertyLocal(decls, step.state, o, descs[i], data);
    }
  }

  /**
   * An array given for a property typed with a class that is not a DTO
   * class makes fill throw (InvalidArgumentException).
   */
  lemma FillRejectsNonDtoClass(decls: ClassTable, o: DtoState, data: seq<Entry>, i: nat)
    requires o.cls in decls
    requires UniqueNames(PropertyList(decls, o)) && i < |PropertyList(decls, o)|
    requires var d := PropertyList(decls, o)[i];
      && d.declared.Named? && !d.declared.isBuiltin && d.name !in o.config.ignore
      && !(d.declared.name in decls && decls[d.declared.name].isDto)
    requires var v := SourceValue(o.config.toUnderScore, PropertyList(decls, o)[i].name, data);
      v.Some? && v.value.Arr?
    ensures Fill(decls, o, data).thrown.Some?
  {
    var d := PropertyList(decls, o)[i];
    var v := SourceValue(o.config.toUnderScore, d.name, data).value;
    assert Bind(decls, d.declared, v) == Err(NotDtoSubclass(d.declared.name));
    FillFromThrows(decls, PropertyList(decls, o), o, data, i);
  }

  /** A step that throws makes the loop throw. */
  lemma {:induction false} FillFromThrows(decls: ClassTable, descs: seq<Descriptor>, o: DtoState, data: seq<Entry>, i: nat)
    requires i < |descs|
    requires FillProperty(decls, o, descs[i], data).thrown.Some?
    ensures FillFrom(decls, descs, o, data).thrown.Some?
    decreases |descs|
  {
    var step := FillProperty(decls, o, descs[0], data);
    if i > 0 && step.thrown.None? {
      assert descs[1..][i - 1] == descs[i];
      FillPropertyThrown(decls, step.state, o, descs[i], data);
      FillFromThrows(decls, descs[1..], step.state, data, i - 1);
    }
  }

  /** Whether a step throws depends on the configuration and the data, not on the properties' values. */
  lemma FillPropertyThrown(decls: ClassTable, o1: DtoState, o2: DtoState, d: Descriptor, data: seq<Entry>)
    requires o1.config == o2.config
    ensures FillProperty(decls, o1, d, data).thrown == FillProperty(decls, o2, d, data).thrown
  {
  }

  /** Class::make([]) is the new instance as the container makes it. */
  lemma MakeWithoutData(decls: ClassTable, cls: string)
    requires cls in decls
    ensures Make(decls, cls, []) == Ok(Fresh(cls, decls[cls]))
  {
  }
}
