/**
 * toArray on DTO states: the initialised public properties in the order of
 * the property list, nulls dropped unless they are kept, keys renamed to
 * snake_case on request, nested DTOs converted recursively, and the result
 * optionally restricted to a list of keys.
 */
module Serialization {
  import opened PhpValues
  import opened Naming
  import opened Schema
  import opened Binding

  /** The key a property is written under. */
  function OutputKey(toUnderScore: bool, name: string): string {
    if toUnderScore then SnakeCase(name) else name
  }

  /** toArray writes property `name`: it is initialised, and it is not null unless nulls are kept. */
  predicate Written(s: DtoState, name: string, keepNull: bool) {
    name in s.props && (keepNull || s.props[name] != Plain(Null))
  }

  /** Descriptor d is written, under key k. */
  predicate Writes(s: DtoState, d: Descriptor, toUnderScore: bool, keepNull: bool, k: string) {
    Written(s, d.name, keepNull) && OutputKey(toUnderScore, d.name) == k
  }

  /**
   * $dto->toArray($toUnderScore, $only, $keepNull): a null argument takes
   * the DTO's own _toUnderScoreOnSerialize or _keepNull.
   */
  function ToArray(decls: ClassTable, s: DtoState, toUnderScore: Option<bool>, only: Option<seq<string>>, keepNull: Option<bool>): (r: seq<Entry>)
    requires Declared(decls, s)
    ensures UniqueKeys(r)
    decreases s, 2
  {
    var snake := if toUnderScore.Some? then toUnderScore.value else s.config.toUnderScoreOnSerialize;
    var keep := if keepNull.Some? then keepNull.value else s.config.keepNull;
    var data := Emit(decls, s, PropertyList(decls, s), snake, keep);
    if only.Some? then IntersectKey(data, only.value) else data
  }

  /** The loop of toArray over the first |descs| entries of the property list. */
  function Emit(decls: ClassTable, s: DtoState, descs: seq<Descriptor>, toUnderScore: bool, keepNull: bool): (r: seq<Entry>)
    requires Declared(decls, s)
    ensures UniqueKeys(r)
    ensures !keepNull ==> forall k :: Get(r, k) != Some(Null)
    decreases s, 1, |descs|
  {
    if descs == [] then []
    else
      var rest := Emit(decls, s, descs[..|descs| - 1], toUnderScore, keepNull);
      var name := descs[|descs| - 1].name;
      if !Written(s, name, keepNull) then rest
      else Put(rest, OutputKey(toUnderScore, name), Render(decls, s, name, toUnderScore))
  }

  /**
   * The value written for an initialised property: plain data as it is, a
   * nested DTO as its own toArray with the same snake_case flag and its own
   * defaults otherwise.
   */
  function Render(decls: ClassTable, s: DtoState, name: string, toUnderScore: bool): (r: Value)
    requires Declared(decls, s) && name in s.props
    ensures s.props[name] != Plain(Null) ==> r != Null
    ensures s.props[name].Plain? ==> r == s.props[name].v
    ensures s.props[name].Nested? ==> r.Arr? && UniqueKeys(r.entries)
    decreases s, 0
  {
    match s.props[name]
    case Plain(v) => v
    case Nested(child) => Arr(ToArray(decls, child, Some(toUnderScore), None, None))
  }

  /** One more pass of toArray's loop. */
  lemma EmitStep(decls: ClassTable, s: DtoState, descs: seq<Descriptor>, i: nat, toUnderScore: bool, keepNull: bool)
    requires Declared(decls, s) && i < |descs|
    ensures Emit(decls, s, descs[..i + 1], toUnderScore, keepNull)
         == if !Written(s, descs[i].name, keepNull) then Emit(decls, s, descs[..i], toUnderScore, keepNull)
            else Put(Emit(decls, s, descs[..i], toUnderScore, keepNull), OutputKey(toUnderScore, descs[i].name),
                     Render(decls, s, descs[i].name, toUnderScore))
  {
    assert descs[..i + 1][..i] == descs[..i];
  }

  /** The keys written, in the order of the property list, repetitions included. */
  function WrittenKeys(s: DtoState, descs: seq<Descriptor>, toUnderScore: bool, keepNull: bool): (ks: seq<string>)
    ensures forall k :: k in ks <==> exists j :: 0 <= j < |descs| && Writes(s, descs[j], toUnderScore, keepNull, k)
    decreases |descs|
  {
    if descs == [] then []
    else
      var d := descs[|descs| - 1];
      var rest := WrittenKeys(s, descs[..|descs| - 1], toUnderScore, keepNull);
      assert forall j :: 0 <= j < |descs| - 1 ==> descs[..|descs| - 1][j] == descs[j];
      if Written(s, d.name, keepNull) then rest + [OutputKey(toUnderScore, d.name)] else rest
  }

  /** Each key once, at its first occurrence. */
  function FirstOccurrences(ks: seq<string>): (r: seq<string>)
    ensures forall k :: k in r <==> k in ks
    ensures forall a, b :: 0 <= a < b < |r| ==> r[a] != r[b]
    decreases |ks|
  {
    if ks == [] then []
    else
      var d := FirstOccurrences(ks[..|ks| - 1]);
      var k := ks[|ks| - 1];
      assert forall x :: x in ks <==> x in ks[..|ks| - 1] || x == k;
      if k in d then d else d + [k]
  }

  /** The position of the last descriptor written under key k, if any. */
  function LastWriter(s: DtoState, descs: seq<Descriptor>, toUnderScore: bool, keepNull: bool, k: string): (r: Option<nat>)
    ensures r.Some? ==> r.value < |descs| && Writes(s, descs[r.value], toUnderScore, keepNull, k)
    ensures r.Some? ==> forall j :: r.value < j < |descs| ==> !Writes(s, descs[j], toUnderScore, keepNull, k)
    ensures r.None? <==> forall j :: 0 <= j < |descs| ==> !Writes(s, descs[j], toUnderScore, keepNull, k)
    decreases |descs|
  {
    if descs == [] then None
    else if Writes(s, descs[|descs| - 1], toUnderScore, keepNull, k) then Some(|descs| - 1)
    else
      var r := LastWriter(s, descs[..|descs| - 1], toUnderScore, keepNull, k);
      assert forall j :: 0 <= j < |descs| - 1 ==> descs[..|descs| - 1][j] == descs[j];
      r
  }

  /** A property that writes k with no later writer of k is the last writer. */
  lemma LastWriterIs(s: DtoState, descs: seq<Descriptor>, toUnderScore: bool, keepNull: bool, k: string, i: nat)
    requires i < |descs| && Writes(s, descs[i], toUnderScore, keepNull, k)
    requires forall j :: i < j < |descs| ==> !Writes(s, descs[j], toUnderScore, keepNull, k)
    ensures LastWriter(s, descs, toUnderScore, keepNull, k) == Some(i)
  {
  }

  /**
   * The keys of the output are the written keys in property-list order,
   * each at its first occurrence: a repeated key keeps its first position.
   */
  lemma {:induction false} EmitKeys(decls: ClassTable, s: DtoState, descs: seq<Descriptor>, toUnderScore: bool, keepNull: bool)
    requires Declared(decls, s)
    ensures Keys(Emit(decls, s, descs, toUnderScore, keepNull)) == FirstOccurrences(WrittenKeys(s, descs, toUnderScore, keepNull))
    decreases |descs|
  {
    if descs != [] {
      var prefix := descs[..|descs| - 1];
      var d := descs[|descs| - 1];
      var rest := Emit(decls, s, prefix, toUnderScore, keepNull);
      EmitKeys(decls, s, prefix, toUnderScore, keepNull);
      if Written(s, d.name, keepNull) {
        var key := OutputKey(toUnderScore, d.name);
        var ks := WrittenKeys(s, descs, toUnderScore, keepNull);
        assert ks[..|ks| - 1] == WrittenKeys(s, prefix, toUnderScore, keepNull);
        HasKeyInKeys(rest, key);
      }
    }
  }

  /**
   * The value under key k is the one written by the last descriptor
   * written under k: a later property renamed to the same key overwrites
   * an earlier one.
   */
  lemma {:induction false} EmitValue(decls: ClassTable, s: DtoState, descs: seq<Descriptor>, toUnderScore: bool, keepNull: bool, k: string)
    requires Declared(decls, s)
    ensures Get(Emit(decls, s, descs, toUnderScore, keepNull), k)
         == match LastWriter(s, descs, toUnderScore, keepNull, k)
            case None => None
            case Some(j) => Some(Render(decls, s, descs[j].name, toUnderScore))
    decreases |descs|
  {
    if descs != [] {
      var prefix := descs[..|descs| - 1];
      EmitValue(decls, s, prefix, toUnderScore, keepNull, k);
      var r := LastWriter(s, prefix, toUnderScore, keepNull, k);
      if r.Some? {
        assert prefix[r.value] == descs[r.value];
      }
    }
  }

  /** When every written property has its own key, the output keys are the written keys in property-list order. */
  lemma {:induction false} FirstOccurrencesOfDistinct(ks: seq<string>)
    requires forall a, b :: 0 <= a < b < |ks| ==> ks[a] != ks[b]
    ensures FirstOccurrences(ks) == ks
    decreases |ks|
  {
    if ks != [] {
      var prefix := ks[..|ks| - 1];
      FirstOccurrencesOfDistinct(prefix);
      assert ks[|ks| - 1] !in prefix;
      assert prefix + [ks[|ks| - 1]] == ks;
    }
  }

  /** A toArray flag: the argument when one is given, else the DTO's own setting. */
  function ResolvedFlag(arg: Option<bool>, own: bool): bool {
    if arg.Some? then arg.value else own
  }

  /**
   * toArray without `only`: its keys are the keys of the initialised (and,
   * unless nulls are kept, non-null) properties in the order reflection lists them, each
   * under its snake_case name when renaming is on, and each key holds the
   * value of the last property written under it.
   */
  lemma ToArrayContents(decls: ClassTable, s: DtoState, toUnderScore: Option<bool>, keepNull: Option<bool>, k: string)
    requires Declared(decls, s)
    ensures var snake := ResolvedFlag(toUnderScore, s.config.toUnderScoreOnSerialize);
      var keep := ResolvedFlag(keepNull, s.config.keepNull);
      var ds := PropertyList(decls, s);
      var r := ToArray(decls, s, toUnderScore, None, keepNull);
      && Keys(r) == FirstOccurrences(WrittenKeys(s, ds, snake, keep))
      && Get(r, k) == match LastWriter(s, ds, snake, keep, k)
                      case None => None
                      case Some(j) => Some(Render(decls, s, ds[j].name, snake))
  {
    var snake := ResolvedFlag(toUnderScore, s.config.toUnderScoreOnSerialize);
    var keep := ResolvedFlag(keepNull, s.config.keepNull);
    EmitKeys(decls, s, PropertyList(decls, s), snake, keep);
    EmitValue(decls, s, PropertyList(decls, s), snake, keep, k);
  }

  /** With keepNull false (given, or the DTO's own default) the output holds no null. */
  lemma ToArrayDropsNulls(decls: ClassTable, s: DtoState, toUnderScore: Option<bool>, only: Option<seq<string>>, keepNull: Option<bool>)
    requires Declared(decls, s)
    requires !ResolvedFlag(keepNull, s.config.keepNull)
    ensures forall k :: Get(ToArray(decls, s, toUnderScore, only, keepNull), k) != Some(Null)
  {
  }

  /**
   * `only` filters the renamed keys: the result's keys are among `only`,
   * each kept key holds the unfiltered value, and the entries keep their
   * order.
   */
  lemma ToArrayOnly(decls: ClassTable, s: DtoState, toUnderScore: Option<bool>, only: seq<string>, keepNull: Option<bool>)
    requires Declared(decls, s)
    ensures var r := ToArray(decls, s, toUnderScore, Some(only), keepNull);
      var full := ToArray(decls, s, toUnderScore, None, keepNull);
      && (forall i :: 0 <= i < |r| ==> r[i].key in only)
      && (forall k :: Get(r, k) == if k in only then Get(full, k) else None)
      && Keys(r) == KeysIn(Keys(full), only)
  {
  }

  /**
   * When no two written properties share a key, the output keys are the
   * written keys themselves, in property-list order.
   */
  lemma ToArrayDistinctKeys(decls: ClassTable, s: DtoState, toUnderScore: Option<bool>, keepNull: Option<bool>)
    requires Declared(decls, s)
    requires var ks := WrittenKeys(s, PropertyList(decls, s), ResolvedFlag(toUnderScore, s.config.toUnderScoreOnSerialize),
                                   ResolvedFlag(keepNull, s.config.keepNull));
      forall a, b :: 0 <= a < b < |ks| ==> ks[a] != ks[b]
    ensures Keys(ToArray(decls, s, toUnderScore, None, keepNull))
         == WrittenKeys(s, PropertyList(decls, s), ResolvedFlag(toUnderScore, s.config.toUnderScoreOnSerialize),
                        ResolvedFlag(keepNull, s.config.keepNull))
  {
    var snake := ResolvedFlag(toUnderScore, s.config.toUnderScoreOnSerialize);
    var keep := ResolvedFlag(keepNull, s.config.keepNull);
    EmitKeys(decls, s, PropertyList(decls, s), snake, keep);
    FirstOccurrencesOfDistinct(WrittenKeys(s, PropertyList(decls, s), snake, keep));
  }

  /**
   * A nested DTO is written as its own toArray, with the parent's
   * snake_case flag and its own keepNull default, provided no later
   * property is written under the same key.
   */
  lemma ToArrayNested(decls: ClassTable, s: DtoState, toUnderScore: Option<bool>, keepNull: Option<bool>, i: nat)
    requires Declared(decls, s) && i < |PropertyList(decls, s)|
    requires var p := PropertyList(decls, s)[i].name; p in s.props && s.props[p].Nested?
    requires var snake := ResolvedFlag(toUnderScore, s.config.toUnderScoreOnSerialize);
      var keep := ResolvedFlag(keepNull, s.config.keepNull);
      var ds := PropertyList(decls, s);
      forall j :: i < j < |ds| ==> !Writes(s, ds[j], snake, keep, OutputKey(snake, ds[i].name))
    ensures var snake := ResolvedFlag(toUnderScore, s.config.toUnderScoreOnSerialize);
      var p := PropertyList(decls, s)[i].name;
      Get(ToArray(decls, s, toUnderScore, None, keepNull), OutputKey(snake, p))
        == Some(Arr(ToArray(decls, s.props[p].dto, Some(snake), None, None)))
  {
    var snake := ResolvedFlag(toUnderScore, s.config.toUnderScoreOnSerialize);
    var keep := ResolvedFlag(keepNull, s.config.keepNull);
    var ds := PropertyList(decls, s);
    var k := OutputKey(snake, ds[i].name);
    assert Writes(s, ds[i], snake, keep, k);
    ToArrayContents(decls, s, toUnderScore, keepNull, k);
    LastWriterIs(s, ds, snake, keep, k, i);
  }

  /**
   * The per-field round trip: a listed, non-ignored scalar property filled
   * from its snake_case key with a value already of its declared type comes
   * back unchanged under that key from toArray(true, null, true), when no
   * other listed property has the same snake_case name.
   */
  lemma FillThenToArray(decls: ClassTable, o: DtoState, data: seq<Entry>, i: nat, v: Value)
    requires Declared(decls, o)
    requires UniqueNames(PropertyList(decls, o)) && i < |PropertyList(decls, o)|
    requires var d := PropertyList(decls, o)[i];
      && d.name !in o.config.ignore
      && (d.declared.Untyped? || d.declared.isBuiltin)
      && OfType(v, d.declared)
    requires o.config.toUnderScore && Get(data, SnakeCase(PropertyList(decls, o)[i].name)) == Some(v)
    requires var ds := PropertyList(decls, o);
      forall j :: 0 <= j < |ds| && j != i ==> SnakeCase(ds[j].name) != SnakeCase(ds[i].name)
    requires Fill(decls, o, data).thrown.None?
    ensures var s := Fill(decls, o, data).state;
      Get(ToArray(decls, s, Some(true), None, Some(true)), SnakeCase(PropertyList(decls, o)[i].name)) == Some(v)
  {
    var ds := PropertyList(decls, o);
    var d := ds[i];
    var s := Fill(decls, o, data).state;
    var k := SnakeCase(d.name);
    SourceValueChoice(o.config.toUnderScore, d.name, data);
    FillEffect(decls, o, data, i);
    if d.declared.Named? {
      CoerceKeepsTypedValue(v, d.declared);
    }
    assert PropOf(s, d.name) == Some(Plain(v));
    assert PropertyList(decls, s) == ds;
    ToArrayContents(decls, s, Some(true), Some(true), k);
    assert Writes(s, ds[i], true, true, k);
    assert forall j :: i < j < |ds| ==> !Writes(s, ds[j], true, true, k);
    LastWriterIs(s, ds, true, true, k, i);
  }
}
