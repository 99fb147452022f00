/**
 * What reflection reports about a DTO class: its declared properties with
 * their visibility, declared type and initial value, the per-class
 * configuration that subclasses override (_toUnderScore,
 * _toUnderScoreOnSerialize, _ignore, _keepNull), and whether the class is a
 * subclass of AbstractDataTransferObject. These declarations are fixed for
 * the lifetime of the process.
 */
module Schema {
  import opened PhpValues

  /** Property type names. The float type is not part of the model. */
  type TypeName = n: string | n != "float" witness "int"

  /** A property's declared type: none, or a ReflectionNamedType. */
  datatype TypeDesc =
    | Untyped
    | Named(name: TypeName, allowsNull: bool, isBuiltin: bool)

  datatype Visibility = Public | Protected | Private

  /** One instance property as declared; `initializer` is its default value, if it has one. */
  datatype PropertyDecl = PropertyDecl(name: string, visibility: Visibility, declared: TypeDesc, initializer: Option<Value>)

  /** The four protected configuration properties of a DTO instance. */
  datatype Config = Config(toUnderScore: bool, toUnderScoreOnSerialize: bool, ignore: seq<string>, keepNull: bool)

  /**
   * A class: whether it is a subclass of AbstractDataTransferObject, the
   * configuration its instances start with, and its instance properties in
   * the order reflection lists them.
   */
  datatype ClassDecl = ClassDecl(isDto: bool, config: Config, properties: seq<PropertyDecl>)

  /** Every class of the program, by fully qualified name. */
  type ClassTable = map<string, ClassDecl>

  /** One entry of the property list: [$property->getName(), $property->getType()]. */
  datatype Descriptor = Descriptor(name: string, declared: TypeDesc)

  /** No two entries of a property list share a name. */
  predicate UniqueNames(ds: seq<Descriptor>) {
    forall i, j :: 0 <= i < j < |ds| ==> ds[i].name != ds[j].name
  }

  /**
   * The property list of a class: its public properties, in the order of
   * the declaration table, as getProperties(ReflectionProperty::IS_PUBLIC) reports them.
   */
  function PublicProperties(ps: seq<PropertyDecl>): (ds: seq<Descriptor>)
    ensures |ds| <= |ps|
    ensures forall p :: p in ps && p.visibility == Public ==> Descriptor(p.name, p.declared) in ds
    ensures forall d :: d in ds ==> exists p :: p in ps && p.visibility == Public && d == Descriptor(p.name, p.declared)
    decreases |ps|
  {
    if ps == [] then []
    else
      var last := ps[|ps| - 1];
      var rest := PublicProperties(ps[..|ps| - 1]);
      assert forall p :: p in ps ==> p in ps[..|ps| - 1] || p == last;
      if last.visibility == Public then rest + [Descriptor(last.name, last.declared)] else rest
  }

  /** The list keeps the order of the declaration table: the list of a concatenation is the concatenation of the lists. */
  lemma {:induction false} PublicPropertiesConcat(a: seq<PropertyDecl>, b: seq<PropertyDecl>)
    ensures PublicProperties(a + b) == PublicProperties(a) + PublicProperties(b)
    decreases |b|
  {
    if b == [] {
      assert a + b == a;
    } else {
      var b' := b[..|b| - 1];
      assert (a + b)[..|a + b| - 1] == a + b';
      PublicPropertiesConcat(a, b');
    }
  }

  /** PHP refuses a class that declares two properties of the same name. */
  predicate UniqueDeclNames(ps: seq<PropertyDecl>) {
    forall i, j :: 0 <= i < j < |ps| ==> ps[i].name != ps[j].name
  }

  /**
   * The value a property holds on a new instance: its default, or null for
   * an untyped property without one; a typed property without a default
   * starts uninitialised.
   */
  function InitialValue(p: PropertyDecl): (r: Option<Value>)
    ensures p.initializer.Some? ==> r == p.initializer
    ensures p.initializer.None? && p.declared.Untyped? ==> r == Some(Null)
    ensures r.None? <==> p.initializer.None? && p.declared.Named?
  {
    if p.initializer.Some? then p.initializer
    else if p.declared.Untyped? then Some(Null)
    else None
  }

  /**
   * The initialised public properties of a new instance: exactly the public
   * properties with an initial value, each holding that value.
   */
  function InitialValues(ps: seq<PropertyDecl>): (m: map<string, Value>)
    ensures forall n :: n in m <==> exists p :: p in ps && p.name == n && p.visibility == Public && InitialValue(p).Some?
    ensures UniqueDeclNames(ps) ==>
      forall p :: p in ps && p.visibility == Public && InitialValue(p).Some? ==>
        p.name in m && m[p.name] == InitialValue(p).value
    decreases |ps|
  {
    if ps == [] then map[]
    else
      var last := ps[|ps| - 1];
      var prefix := ps[..|ps| - 1];
      var rest := InitialValues(prefix);
      assert forall p :: p in ps <==> p in prefix || p == last;
      UniqueDeclNamesPrefix(ps);
      if last.visibility == Public && InitialValue(last).Some? then rest[last.name := InitialValue(last).value]
      else rest
  }

  /** Without the last declaration, names stay unique and none is the last one's. */
  lemma UniqueDeclNamesPrefix(ps: seq<PropertyDecl>)
    requires ps != []
    ensures UniqueDeclNames(ps) ==>
      && UniqueDeclNames(ps[..|ps| - 1])
      && forall p :: p in ps[..|ps| - 1] ==> p.name != ps[|ps| - 1].name
  {
    if UniqueDeclNames(ps) {
      forall p | p in ps[..|ps| - 1] ensures p.name != ps[|ps| - 1].name {
        var j :| 0 <= j < |ps| - 1 && ps[..|ps| - 1][j] == p;
        assert ps[j] == p;
      }
    }
  }

  /** Since declared names are unique, so are the names in the property list. */
  lemma {:induction false} PublicPropertiesUnique(ps: seq<PropertyDecl>)
    requires UniqueDeclNames(ps)
    ensures UniqueNames(PublicProperties(ps))
    decreases |ps|
  {
    if ps != [] {
      var last := ps[|ps| - 1];
      var prefix := ps[..|ps| - 1];
      UniqueDeclNamesPrefix(ps);
      PublicPropertiesUnique(prefix);
      var rest := PublicProperties(prefix);
      forall d | d in rest ensures d.name != last.name {
        var p :| p in prefix && p.visibility == Public && d == Descriptor(p.name, p.declared);
      }
    }
  }

  /** The type names ReflectionNamedType::isBuiltin() reports as builtin for a property. */
  const BuiltinTypeNames: set<string> :=
    {"int", "float", "string", "bool", "array", "mixed", "iterable", "object", "null", "false", "true"}

  /** A declared type whose isBuiltin flag agrees with its name. */
  predicate WellTypedDesc(t: TypeDesc) {
    t.Named? ==> (t.isBuiltin <==> t.name in BuiltinTypeNames)
  }

  /** Every property type in the table agrees with reflection's isBuiltin. */
  predicate WellTyped(decls: ClassTable) {
    forall c, p :: c in decls && p in decls[c].properties ==> WellTypedDesc(p.declared)
  }

  /**
   * In a well-typed table, an `int`, `bool` or `string` property in a
   * class's property list is builtin, and a non-builtin one names a class.
   */
  lemma WellTypedPropertyList(decls: ClassTable, c: string, d: Descriptor)
    requires WellTyped(decls) && c in decls && d in PublicProperties(decls[c].properties)
    ensures d.declared.Named? && d.declared.name in {"int", "bool", "string"} ==> d.declared.isBuiltin
    ensures d.declared.Named? && !d.declared.isBuiltin ==> d.declared.name !in BuiltinTypeNames
  {
    var p :| p in decls[c].properties && p.visibility == Public && d == Descriptor(p.name, p.declared);
  }
}
