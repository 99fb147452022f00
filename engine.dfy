/**
 * AbstractDataTransferObject as objects: the static caches live in a
 * Registry shared by every DTO of the process, and a DataTransferObject
 * holds its initialised public properties and its four configuration
 * properties as fields that fill updates in place. A property holding a
 * nested DTO refers to another DataTransferObject. Every method is proved
 * to follow the functions of modules Binding and Serialization.
 */
module Engine {
  import opened PhpValues
  import opened Naming
  import opened Schema
  import opened Binding
  import Serialization

  /**
   * The two static caches, _underScoreCache and _properties, over the
   * program's (fixed) class declarations.
   */
  class Registry {
    const decls: ClassTable
    var underScoreCache: map<string, string>
    var properties: map<string, seq<Descriptor>>

    /** Every cached entry is what a cache miss would compute. */
    ghost predicate Valid()
      reads this
    {
      && (forall n :: n in underScoreCache ==> underScoreCache[n] == SnakeCase(n))
      && (forall c :: c in properties ==> c in decls && properties[c] == PublicProperties(decls[c].properties))
    }

    constructor(decls: ClassTable)
      ensures Valid() && this.decls == decls
      ensures underScoreCache == map[] && properties == map[]
    {
      this.decls := decls;
      underScoreCache := map[];
      properties := map[];
    }

    /**
     * toUnderScore($name): the snake_case name, taken from the cache when
     * present and computed and cached otherwise.
     */
    method ToUnderScore(name: string) returns (r: string)
      requires Valid()
      modifies this
      ensures Valid()
      ensures r == SnakeCase(name)
      ensures name in old(underScoreCache) ==> r == old(underScoreCache)[name]
      ensures underScoreCache == old(underScoreCache)[name := r]
      ensures properties == old(properties)
    {
      if name in underScoreCache {
        r := underScoreCache[name];
      } else {
        r := SnakeCase(name);
        underScoreCache := underScoreCache[name := r];
      }
    }

    /**
     * getProperties(): the public properties of class cls in declaration
     * order, collected once and served from the cache afterwards.
     */
    method GetProperties(cls: string) returns (ds: seq<Descriptor>)
      requires Valid() && cls in decls
      modifies this
      ensures Valid()
      ensures ds == PublicProperties(decls[cls].properties)
      ensures cls in old(properties) ==> ds == old(properties)[cls]
      ensures properties == old(properties)[cls := ds]
      ensures underScoreCache == old(underScoreCache)
    {
      if cls in properties {
        return properties[cls];
      }
      var ps := decls[cls].properties;
      ds := [];
      var i := 0;
      while i < |ps|
        invariant 0 <= i <= |ps|
        invariant ds == PublicProperties(ps[..i])
      {
        assert ps[..i + 1][..i] == ps[..i];
        if ps[i].visibility == Public {
          ds := ds + [Descriptor(ps[i].name, ps[i].declared)];
        }
        i := i + 1;
      }
      assert ps[..|ps|] == ps;
      properties := properties[cls := ds];
    }
  }

  /** What a property field holds: plain data, or a reference to a nested DTO. */
  datatype Slot = Held(v: Value) | Ref(obj: DataTransferObject)

  class DataTransferObject {
    /** static::class */
    const cls: string
    /** The initialised public properties; an absent name is uninitialised. */
    var props: map<string, Slot>
    var toUnderScore: bool
    var toUnderScoreOnSerialize: bool
    var ignore: seq<string>
    var keepNull: bool
    /** This object and every DTO reachable from its properties. */
    ghost var Repr: set<DataTransferObject>

    /** Nested DTOs are valid and do not reach back to this one. */
    ghost predicate Valid()
      reads this, Repr
      decreases Repr
    {
      && this in Repr
      && forall k | k in props && props[k].Ref? ::
           && props[k].obj in Repr
           && props[k].obj.Repr <= Repr
           && this !in props[k].obj.Repr
           && props[k].obj.Valid()
    }

    /** The DTO state this object represents. */
    ghost function Abstract(): DtoState
      requires Valid()
      reads this, Repr
      decreases Repr
    {
      DtoState(cls, Config(toUnderScore, toUnderScoreOnSerialize, ignore, keepNull),
        map k | k in props :: if props[k].Held? then Plain(props[k].v) else Nested(props[k].obj.Abstract()))
    }

    /** A container-made instance: the class's configuration and declared defaults. */
    constructor(cls: string, decl: ClassDecl)
      ensures Valid() && fresh(Repr)
      ensures Abstract() == Fresh(cls, decl)
    {
      this.cls := cls;
      var init := InitialValues(decl.properties);
      props := map k | k in init :: Held(init[k]);
      toUnderScore := decl.config.toUnderScore;
      toUnderScoreOnSerialize := decl.config.toUnderScoreOnSerialize;
      ignore := decl.config.ignore;
      keepNull := decl.config.keepNull;
      Repr := {this};
    }

    /** $this->{$name} = plain data */
    method AssignValue(name: string, v: Value)
      requires Valid()
      modifies this
      ensures Valid() && Repr == old(Repr)
      ensures Abstract() == old(Abstract()).(props := old(Abstract()).props[name := Plain(v)])
    {
      ghost var before := Abstract();
      props := props[name := Held(v)];
      KeepAbstract(before, name, Plain(v));
    }

    /** $this->{$name} = a DTO made for it */
    method AssignObject(name: string, child: DataTransferObject)
      requires Valid() && child.Valid() && this !in child.Repr
      modifies this
      ensures Valid() && Repr == old(Repr) + child.Repr
      ensures Abstract() == old(Abstract()).(props := old(Abstract()).props[name := Nested(child.Abstract())])
    {
      ghost var before := Abstract();
      props := props[name := Ref(child)];
      Repr := Repr + child.Repr;
      KeepAbstract(before, name, Nested(child.Abstract()));
    }

    /**
     * After property `name` is written, this object represents the old
     * state with that one property replaced by m.
     */
    lemma KeepAbstract(before: DtoState, name: string, m: Member)
      requires Valid() && name in props
      requires before.cls == cls && before.config == Config(toUnderScore, toUnderScoreOnSerialize, ignore, keepNull)
      requires before.props.Keys + {name} == props.Keys
      requires forall k | k in props && k != name ::
        k in before.props && before.props[k] == if props[k].Held? then Plain(props[k].v) else Nested(props[k].obj.Abstract())
      requires m == if props[name].Held? then Plain(props[name].v) else Nested(props[name].obj.Abstract())
      ensures Abstract() == before.(props := before.props[name := m])
    {
    }

    /** make(): a container-made instance of class cls, filled from data. */
    static method Make(reg: Registry, cls: string, data: seq<Entry>) returns (r: Result<DataTransferObject>)
      requires reg.Valid() && cls in reg.decls
      modifies reg
      ensures reg.Valid()
      ensures r.Ok? ==> fresh(r.value.Repr) && r.value.Valid()
      ensures match Binding.Make(reg.decls, cls, data)
        case Err(e) => r == Err(e)
        case Ok(s) => r.Ok? && r.value.Valid() && r.value.Abstract() == s
      decreases Arr(data), 3
    {
      var obj := new DataTransferObject(cls, reg.decls[cls]);
      var thrown := obj.Fill(reg, data);
      if thrown.Some? {
        return Err(thrown.value);
      }
      return Ok(obj);
    }

    /** fill($data): the loop over the class's property list, left by the first exception. */
    method Fill(reg: Registry, data: seq<Entry>) returns (thrown: Option<Error>)
      requires Valid() && reg.Valid() && cls in reg.decls
      modifies this, reg
      ensures Valid() && reg.Valid()
      ensures fresh(Repr - old(Repr))
      ensures Binding.Fill(reg.decls, old(Abstract()), data) == FillResult(Abstract(), thrown)
      decreases Arr(data), 2
    {
      if |data| == 0 {
        return None;
      }
      var descs := reg.GetProperties(cls);
      var i := 0;
      while i < |descs|
        invariant 0 <= i <= |descs|
        invariant Valid() && reg.Valid()
        invariant fresh(Repr - old(Repr))
        invariant FillFrom(reg.decls, descs[i..], Abstract(), data) == FillFrom(reg.decls, descs, old(Abstract()), data)
      {
        assert descs[i..][1..] == descs[i + 1..];
        thrown := FillProperty(reg, descs[i], data);
        if thrown.Some? {
          return;
        }
        i := i + 1;
      }
      thrown := None;
    }

    /** One pass of fill's loop: the property described by d. */
    method FillProperty(reg: Registry, d: Descriptor, data: seq<Entry>) returns (thrown: Option<Error>)
      requires Valid() && reg.Valid()
      modifies this, reg
      ensures Valid() && reg.Valid()
      ensures fresh(Repr - old(Repr))
      ensures Binding.FillProperty(reg.decls, old(Abstract()), d, data) == FillResult(Abstract(), thrown)
      decreases Arr(data), 1
    {
      thrown := None;
      if d.name in ignore {
        return;
      }
      ghost var before := Abstract();
      var found := LookUp(reg, d.name, data);
      assert unchanged(Repr);
      if found.None? {
        return;
      }
      var bound := Bind(reg, d.declared, found.value);
      assert unchanged(Repr);
      assert Valid() && Abstract() == before;
      ghost var spec := Binding.Bind(reg.decls, d.declared, found.value);
      thrown := Store(d.name, bound, spec);
    }

    /** The end of one pass of fill's loop: throw, skip, or assign the bound value. */
    method Store(name: string, bound: Result<Option<Slot>>, ghost spec: Result<Option<Member>>) returns (thrown: Option<Error>)
      requires Valid()
      requires bound.Ok? && bound.value.Some? && bound.value.value.Ref? ==>
        bound.value.value.obj.Valid() && this !in bound.value.value.obj.Repr
      requires match spec
        case Err(e) => bound == Err(e)
        case Ok(None) => bound == Ok(None)
        case Ok(Some(m)) => bound.Ok? && bound.value.Some? && Represents(bound.value.value, m)
      modifies this
      ensures Valid()
      ensures Repr == old(Repr) + if bound.Ok? && bound.value.Some? && bound.value.value.Ref? then bound.value.value.obj.Repr else {}
      ensures match spec
        case Err(e) => thrown == Some(e) && Abstract() == old(Abstract())
        case Ok(None) => thrown.None? && Abstract() == old(Abstract())
        case Ok(Some(m)) => thrown.None? && Abstract() == old(Abstract()).(props := old(Abstract()).props[name := m])
    {
      thrown := None;
      match bound {
        case Err(e) =>
          thrown := Some(e);
        case Ok(None) =>
        case Ok(Some(Held(v))) =>
          AssignValue(name, v);
        case Ok(Some(Ref(child))) =>
          AssignObject(name, child);
      }
    }

    /**
     * The value handling of fill's loop: a class-typed property takes
     * buildObjectValue's result; a builtin-typed one skips an empty input
     * it cannot hold, turns it into null when it can, and casts anything
     * else; an untyped one takes the value as it is.
     */
    static method Bind(reg: Registry, t: TypeDesc, value: Value) returns (r: Result<Option<Slot>>)
      requires reg.Valid()
      modifies reg
      ensures reg.Valid()
      ensures r.Ok? && r.value.Some? && r.value.value.Ref? ==> fresh(r.value.value.obj.Repr) && r.value.value.obj.Valid()
      ensures match Binding.Bind(reg.decls, t, value)
        case Err(e) => r == Err(e)
        case Ok(None) => r == Ok(None)
        case Ok(Some(m)) => r.Ok? && r.value.Some? && Represents(r.value.value, m)
      decreases value, 5
    {
      if t.Named? && !t.isBuiltin {
        var built := BuildObjectValue(reg, t.name, value);
        match built {
          case Err(e) => r := Err(e);
          case Ok(slot) => r := Ok(Some(slot));
        }
        return;
      }
      var v := value;
      if t.Named? {
        if t.name != "string" && (v.Null? || v == Str("")) {
          if t.allowsNull {
            v := Null;
          } else {
            return Ok(None);
          }
        }
        v := Cast(v, t);
      }
      r := Ok(Some(Held(v)));
    }

    /**
     * The value fill reads for property `name`: under its snake_case name
     * when _toUnderScore is set and that key exists, else under the name.
     */
    method LookUp(reg: Registry, name: string, data: seq<Entry>) returns (found: Option<Value>)
      requires reg.Valid()
      modifies reg
      ensures reg.Valid()
      ensures found == SourceValue(toUnderScore, name, data)
    {
      var paramName := name;
      if toUnderScore {
        paramName := reg.ToUnderScore(name);
      }
      if toUnderScore && HasKey(data, paramName) {
        found := Some(data[IndexOf(data, paramName).value].val);
      } else if HasKey(data, name) {
        found := Some(data[IndexOf(data, name).value].val);
      } else {
        found := None;
      }
    }

    /**
     * buildObjectValue($class, $data): non-array data as it is, an
     * exception for a class that is not a DTO class, a made instance
     * otherwise.
     */
    static method BuildObjectValue(reg: Registry, cls: string, data: Value) returns (r: Result<Slot>)
      requires reg.Valid()
      modifies reg
      ensures reg.Valid()
      ensures r.Ok? && r.value.Ref? ==> fresh(r.value.obj.Repr) && r.value.obj.Valid()
      ensures match Binding.BuildObjectValue(reg.decls, cls, data)
        case Err(e) => r == Err(e)
        case Ok(m) => r.Ok? && Represents(r.value, m)
      decreases data, 4
    {
      if !data.Arr? {
        return Ok(Held(data));
      }
      if !(cls in reg.decls && reg.decls[cls].isDto) {
        return Err(NotDtoSubclass(cls));
      }
      var made := Make(reg, cls, data.entries);
      match made {
        case Err(e) => r := Err(e);
        case Ok(obj) => r := Ok(Ref(obj));
      }
    }

    /**
     * toArray($toUnderScore, $only, $keepNull): the initialised properties
     * in property-list order, nested DTOs converted by their own toArray.
     */
    method ToArray(reg: Registry, toUnderScore: Option<bool>, only: Option<seq<string>>, keepNull: Option<bool>) returns (r: seq<Entry>)
      requires Valid() && reg.Valid() && Declared(reg.decls, Abstract())
      modifies reg
      ensures reg.Valid()
      ensures r == Serialization.ToArray(reg.decls, Abstract(), toUnderScore, only, keepNull)
      decreases Repr, 2
    {
      var snake := if toUnderScore.Some? then toUnderScore.value else toUnderScoreOnSerialize;
      var keep := if keepNull.Some? then keepNull.value else this.keepNull;
      ghost var state := Abstract();
      var descs := reg.GetProperties(cls);
      var data: seq<Entry> := [];
      var i := 0;
      while i < |descs|
        invariant 0 <= i <= |descs|
        invariant reg.Valid() && Valid() && Abstract() == state
        invariant data == Serialization.Emit(reg.decls, state, descs[..i], snake, keep)
      {
        data := EmitProperty(reg, descs, i, snake, keep, data);
        i := i + 1;
      }
      assert descs[..|descs|] == descs;
      if only.Some? {
        r := IntersectKey(data, only.value);
      } else {
        r := data;
      }
    }

    /** One pass of toArray's loop: write descs[i] into data if it is initialised (and not a dropped null). */
    method EmitProperty(reg: Registry, descs: seq<Descriptor>, i: nat, snake: bool, keep: bool, data: seq<Entry>)
      returns (data': seq<Entry>)
      requires Valid() && reg.Valid() && Declared(reg.decls, Abstract()) && i < |descs|
      requires data == Serialization.Emit(reg.decls, Abstract(), descs[..i], snake, keep)
      modifies reg
      ensures reg.Valid() && Valid() && Abstract() == old(Abstract())
      ensures data' == Serialization.Emit(reg.decls, Abstract(), descs[..i + 1], snake, keep)
      decreases Repr, 1
    {
      ghost var state := Abstract();
      Serialization.EmitStep(reg.decls, state, descs, i, snake, keep);
      var name := descs[i].name;
      assert name in props <==> name in state.props;
      assert name in props ==> (props[name] == Held(Null) <==> state.props[name] == Plain(Null));
      data' := data;
      if name in props && (keep || props[name] != Held(Null)) {
        var key := name;
        if snake {
          key := reg.ToUnderScore(name);
        }
        assert unchanged(Repr);
        assert Valid();
        assert Abstract() == state;
        var value := Render(reg, name, snake);
        assert unchanged(Repr);
        data' := Put(data, key, value);
      }
    }

    /** $value, or $value->toArray($toUnderScore) for a nested DTO. */
    method Render(reg: Registry, name: string, snake: bool) returns (value: Value)
      requires Valid() && reg.Valid() && Declared(reg.decls, Abstract()) && name in props
      modifies reg
      ensures reg.Valid()
      ensures value == Serialization.Render(reg.decls, old(Abstract()), name, snake)
      decreases Repr, 0
    {
      match props[name] {
        case Held(v) => value := v;
        case Ref(child) =>
          assert Abstract().props[name] == Nested(child.Abstract());
          var nested := child.ToArray(reg, Some(snake), None, None);
          value := Arr(nested);
      }
    }
  }

  /** Slot s holds member m: the same data, or a valid DTO representing it. */
  ghost predicate Represents(s: Slot, m: Member)
    reads if s.Ref? then {s.obj} + s.obj.Repr else {}
  {
    match s
    case Held(v) => m == Plain(v)
    case Ref(obj) => obj.Valid() && m == Nested(obj.Abstract())
  }
}
