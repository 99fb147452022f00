/**
 * PHP's plain data as it reaches a data-transfer object: request parameters
 * and decoded JSON. An array is an ordered list of entries; PHP normalises a
 * canonical decimal string key to an integer key, so writing every integer
 * key as its decimal string is a faithful encoding of the key space.
 * Objects never occur in plain data (nested objects are built by the DTO
 * layer itself); floats are not modelled.
 */
module PhpValues {

  datatype Option<+T> = None | Some(value: T)

  datatype Value =
    | Null
    | Bool(b: bool)
    | Int(i: int)
    | Str(s: string)
    | Arr(entries: seq<Entry>)

  datatype Entry = Entry(key: string, val: Value)

  const PHP_INT_MAX: int := 0x7FFF_FFFF_FFFF_FFFF
  const PHP_INT_MIN: int := -0x8000_0000_0000_0000

  function Keys(es: seq<Entry>): (ks: seq<string>)
    ensures |ks| == |es|
    ensures forall i :: 0 <= i < |es| ==> ks[i] == es[i].key
  {
    if es == [] then [] else [es[0].key] + Keys(es[1..])
  }

  /** Every PHP array has pairwise distinct keys. */
  predicate UniqueKeys(es: seq<Entry>) {
    forall i, j :: 0 <= i < j < |es| ==> es[i].key != es[j].key
  }

  /** The position of key `k` in an array, if the key is present. */
  function IndexOf(es: seq<Entry>, k: string): (r: Option<nat>)
    ensures r.Some? ==> r.value < |es| && es[r.value].key == k
    ensures r.Some? ==> forall j :: 0 <= j < r.value ==> es[j].key != k
    ensures r.None? <==> forall j :: 0 <= j < |es| ==> es[j].key != k
  {
    if es == [] then None
    else if es[0].key == k then Some(0)
    else match IndexOf(es[1..], k)
      case None => None
      case Some(j) => Some(j + 1)
  }

  /** array_key_exists($k, $es) */
  predicate HasKey(es: seq<Entry>, k: string) {
    IndexOf(es, k).Some?
  }

  /** A key is present exactly when it is among the array's keys. */
  lemma {:induction false} HasKeyInKeys(es: seq<Entry>, k: string)
    ensures HasKey(es, k) <==> k in Keys(es)
  {
    if k in Keys(es) {
      var j :| 0 <= j < |es| && Keys(es)[j] == k;
      assert es[j].key == k;
    }
  }

  /** $es[$k], or None when the key is absent. */
  function Get(es: seq<Entry>, k: string): Option<Value> {
    match IndexOf(es, k)
    case Some(i) => Some(es[i].val)
    case None => None
  }

  /** Where a key sits depends only on the sequence of keys. */
  lemma {:induction false} IndexOfSameKeys(es: seq<Entry>, fs: seq<Entry>, k: string)
    requires Keys(es) == Keys(fs)
    ensures IndexOf(es, k) == IndexOf(fs, k)
    decreases |es|
  {
    if es != [] {
      assert fs != [] && es[0].key == fs[0].key;
      assert Keys(es[1..]) == Keys(es)[1..] == Keys(fs)[1..] == Keys(fs[1..]);
      IndexOfSameKeys(es[1..], fs[1..], k);
    }
  }

  /**
   * The array write `$es[$k] = $v`: an existing key keeps its position and
   * takes the new value, a new key is appended at the end.
   */
  function Put(es: seq<Entry>, k: string, v: Value): (r: seq<Entry>)
    ensures Get(r, k) == Some(v)
    ensures forall k' :: k' != k ==> Get(r, k') == Get(es, k')
    ensures Keys(r) == if HasKey(es, k) then Keys(es) else Keys(es) + [k]
    ensures UniqueKeys(es) ==> UniqueKeys(r)
  {
    PutFacts(es, k, v);
    match IndexOf(es, k)
    case Some(i) => es[i := Entry(k, v)]
    case None => es + [Entry(k, v)]
  }

  lemma {:induction false} PutFacts(es: seq<Entry>, k: string, v: Value)
    ensures var r := match IndexOf(es, k)
                     case Some(i) => es[i := Entry(k, v)]
                     case None => es + [Entry(k, v)];
      && Get(r, k) == Some(v)
      && (forall k' :: k' != k ==> Get(r, k') == Get(es, k'))
      && Keys(r) == (if HasKey(es, k) then Keys(es) else Keys(es) + [k])
  {
    match IndexOf(es, k)
    case Some(i) => PutExisting(es, i, k, v);
    case None => PutNew(es, k, v);
  }

  lemma {:induction false} PutExisting(es: seq<Entry>, i: nat, k: string, v: Value)
    requires IndexOf(es, k) == Some(i)
    ensures var r := es[i := Entry(k, v)];
      && Keys(r) == Keys(es)
      && forall k' :: IndexOf(r, k') == IndexOf(es, k')
  {
    var r := es[i := Entry(k, v)];
    assert Keys(r) == Keys(es);
    forall k' ensures IndexOf(r, k') == IndexOf(es, k') {
      IndexOfSameKeys(r, es, k');
    }
  }

  lemma {:induction false} PutNew(es: seq<Entry>, k: string, v: Value)
    requires IndexOf(es, k).None?
    ensures var r := es + [Entry(k, v)];
      && Keys(r) == Keys(es) + [k]
      && IndexOf(r, k) == Some(|es|)
      && forall k' :: k' != k ==> IndexOf(r, k') == IndexOf(es, k')
  {
    var r := es + [Entry(k, v)];
    assert Keys(r) == Keys(es) + [k];
    forall k' | k' != k ensures IndexOf(r, k') == IndexOf(es, k') {
      AppendOtherKey(es, Entry(k, v), k');
    }
    AppendOtherKey(es, Entry(k, v), k);
  }

  lemma {:induction false} AppendOtherKey(es: seq<Entry>, e: Entry, k: string)
    ensures IndexOf(es + [e], k) == if HasKey(es, k) then IndexOf(es, k)
                                    else if e.key == k then Some(|es|) else None
  {
    var r := es + [e];
    assert forall m :: 0 <= m < |es| ==> r[m] == es[m];
    match IndexOf(es, k)
    case Some(j) =>
      assert IndexOf(r, k) == Some(j);
    case None =>
      if e.key == k {
        assert r[|es|].key == k;
      } else {
        assert forall m :: 0 <= m < |r| ==> r[m].key != k;
      }
  }

  /**
   * array_intersect_key($es, array_flip($ks)): the entries of `es`, in their
   * order, whose key is one of `ks`.
   */
  function IntersectKey(es: seq<Entry>, ks: seq<string>): (r: seq<Entry>)
    ensures forall i :: 0 <= i < |r| ==> r[i].key in ks
    ensures forall k :: Get(r, k) == if k in ks then Get(es, k) else None
    ensures forall e :: e in r ==> e in es
    ensures UniqueKeys(es) ==> UniqueKeys(r)
    ensures Keys(r) == KeysIn(Keys(es), ks)
  {
    if es == [] then []
    else
      var rest := IntersectKey(es[1..], ks);
      IntersectKeyCons(es, ks, rest);
      if es[0].key in ks then [es[0]] + rest else rest
  }

  /** The keys of ks that are in only, in their order in ks. */
  function KeysIn(ks: seq<string>, only: seq<string>): (r: seq<string>)
    ensures forall k :: k in r <==> k in ks && k in only
  {
    if ks == [] then []
    else if ks[0] in only then [ks[0]] + KeysIn(ks[1..], only)
    else KeysIn(ks[1..], only)
  }

  lemma {:induction false} IntersectKeyUnique(es: seq<Entry>, ks: seq<string>, rest: seq<Entry>)
    requires es != []
    requires forall e :: e in rest ==> e in es[1..]
    requires UniqueKeys(es[1..]) ==> UniqueKeys(rest)
    ensures UniqueKeys(es) ==> UniqueKeys(if es[0].key in ks then [es[0]] + rest else rest)
  {
    if UniqueKeys(es) {
      assert UniqueKeys(es[1..]) by {
        forall a, b | 0 <= a < b < |es[1..]| ensures es[1..][a].key != es[1..][b].key {
          assert es[1..][a] == es[a + 1] && es[1..][b] == es[b + 1];
        }
      }
      if es[0].key in ks {
        var r := [es[0]] + rest;
        forall a, b | 0 <= a < b < |r| ensures r[a].key != r[b].key {
          if a == 0 {
            assert r[b] == rest[b - 1] && r[b] in es[1..];
            var j :| 0 <= j < |es[1..]| && es[1..][j] == r[b];
            assert es[j + 1] == r[b];
          } else {
            assert r[a] == rest[a - 1] && r[b] == rest[b - 1];
          }
        }
      }
    }
  }

  /** The recursive step of IntersectKey keeps all four of its properties. */
  lemma {:induction false} IntersectKeyCons(es: seq<Entry>, ks: seq<string>, rest: seq<Entry>)
    requires es != []
    requires forall i :: 0 <= i < |rest| ==> rest[i].key in ks
    requires forall k :: Get(rest, k) == if k in ks then Get(es[1..], k) else None
    requires forall e :: e in rest ==> e in es[1..]
    requires UniqueKeys(es[1..]) ==> UniqueKeys(rest)
    requires Keys(rest) == KeysIn(Keys(es[1..]), ks)
    ensures var r := if es[0].key in ks then [es[0]] + rest else rest;
      && (forall i :: 0 <= i < |r| ==> r[i].key in ks)
      && (forall k :: Get(r, k) == if k in ks then Get(es, k) else None)
      && (forall e :: e in r ==> e in es)
      && (UniqueKeys(es) ==> UniqueKeys(r))
      && Keys(r) == KeysIn(Keys(es), ks)
  {
    IntersectKeyStep(es, ks, rest);
    IntersectKeyUnique(es, ks, rest);
    IntersectKeyOrder(es, ks, rest);
    var r := if es[0].key in ks then [es[0]] + rest else rest;
    forall e | e in r ensures e in es {
      if e != es[0] {
        assert e in es[1..];
      }
    }
    forall i | 0 <= i < |r| ensures r[i].key in ks {
      if es[0].key in ks && i > 0 {
        assert r[i] == rest[i - 1];
      }
    }
  }

  lemma {:induction false} IntersectKeyOrder(es: seq<Entry>, ks: seq<string>, rest: seq<Entry>)
    requires es != []
    requires Keys(rest) == KeysIn(Keys(es[1..]), ks)
    ensures Keys(if es[0].key in ks then [es[0]] + rest else rest) == KeysIn(Keys(es), ks)
  {
    assert Keys(es)[1..] == Keys(es[1..]);
    if es[0].key in ks {
      assert ([es[0]] + rest)[1..] == rest;
    }
  }

  lemma {:induction false} IntersectKeyStep(es: seq<Entry>, ks: seq<string>, rest: seq<Entry>)
    requires es != []
    requires forall k :: Get(rest, k) == if k in ks then Get(es[1..], k) else None
    ensures var r := if es[0].key in ks then [es[0]] + rest else rest;
      forall k :: Get(r, k) == if k in ks then Get(es, k) else None
  {
    var r := if es[0].key in ks then [es[0]] + rest else rest;
    forall k ensures Get(r, k) == if k in ks then Get(es, k) else None {
      assert Get(es, k) == if es[0].key == k then Some(es[0].val) else Get(es[1..], k);
      if es[0].key in ks && k != es[0].key {
        assert r[1..] == rest;
        assert Get(r, k) == Get(rest, k);
      }
    }
  }

  // ---------------------------------------------------------------------
  // PHP's loose scalar conversions, as used by the (int), (bool) and
  // (string) casts.

  predicate IsDigit(c: char) { '0' <= c <= '9' }

  /** The white space PHP skips before a numeric string. */
  predicate IsNumericSpace(c: char) {
    c == ' ' || c == '\t' || c == '\n' || c == '\r' || c == '\U{B}' || c == '\U{C}'
  }

  function SkipSpace(s: string): (t: string)
    ensures |t| <= |s| && t == s[|s| - |t|..]
    ensures |t| > 0 ==> !IsNumericSpace(t[0])
  {
    if |s| > 0 && IsNumericSpace(s[0]) then SkipSpace(s[1..]) else s
  }

  /** The longest prefix of `s` made of decimal digits. */
  function LeadingDigits(s: string): (ds: string)
    ensures |ds| <= |s| && ds == s[..|ds|]
    ensures forall i :: 0 <= i < |ds| ==> IsDigit(ds[i])
    ensures |ds| < |s| ==> !IsDigit(s[|ds|])
  {
    if |s| > 0 && IsDigit(s[0]) then [s[0]] + LeadingDigits(s[1..]) else ""
  }

  function DigitValue(c: char): nat
    requires IsDigit(c)
  {
    c as int - '0' as int
  }

  /** The number a string of decimal digits denotes. */
  function DigitsValue(ds: string): nat
    requires forall i :: 0 <= i < |ds| ==> IsDigit(ds[i])
  {
    if ds == [] then 0
    else DigitsValue(ds[..|ds| - 1]) * 10 + DigitValue(ds[|ds| - 1])
  }

  /** Out-of-range integers saturate at the 64-bit bounds. */
  function Clamp(x: int): (r: int)
    ensures PHP_INT_MIN <= r <= PHP_INT_MAX
    ensures PHP_INT_MIN <= x <= PHP_INT_MAX ==> r == x
    ensures x > PHP_INT_MAX ==> r == PHP_INT_MAX
    ensures x < PHP_INT_MIN ==> r == PHP_INT_MIN
  {
    if x > PHP_INT_MAX then PHP_INT_MAX else if x < PHP_INT_MIN then PHP_INT_MIN else x
  }

  /**
   * The least magnitude a decimal numeral rounds to an infinite double from:
   * 2^1024 - 2^970, halfway between the largest finite double and 2^1024.
   */
  const DOUBLE_OVERFLOW: int :=
    0xFFFF_FFFF_FFFF_FC00_0000_0000_0000_0000_0000_0000_0000_0000_0000_0000_0000_0000_0000_0000_0000_0000_0000_0000_0000_0000_0000_0000_0000_0000_0000_0000_0000_0000_0000_0000_0000_0000_0000_0000_0000_0000_0000_0000_0000_0000_0000_0000_0000_0000_0000_0000_0000_0000_0000_0000_0000_0000_0000_0000_0000_0000_0000_0000_0000_0000

  /**
   * zend_dval_to_lval_cap applied to a numeral read as a double: an
   * infinite double gives 0, any other out-of-range value saturates at the
   * 64-bit bounds.
   */
  function Cap(x: int): (r: int)
    ensures PHP_INT_MIN <= r <= PHP_INT_MAX
    ensures (x >= DOUBLE_OVERFLOW || x <= -DOUBLE_OVERFLOW) ==> r == 0
    ensures -DOUBLE_OVERFLOW < x < DOUBLE_OVERFLOW ==> r == Clamp(x)
  {
    if x >= DOUBLE_OVERFLOW || x <= -DOUBLE_OVERFLOW then 0 else Clamp(x)
  }

  /**
   * (int)$s for a string: leading white space, an optional sign, then the
   * leading decimal digits; anything after them is ignored and a string
   * without digits gives 0.
   */
  function IntOfString(s: string): (r: int)
    ensures PHP_INT_MIN <= r <= PHP_INT_MAX
  {
    var t := SkipSpace(s);
    if |t| > 0 && t[0] == '-' then Cap(-(DigitsValue(LeadingDigits(t[1..])) as int))
    else if |t| > 0 && t[0] == '+' then Cap(DigitsValue(LeadingDigits(t[1..])))
    else Cap(DigitsValue(LeadingDigits(t)))
  }

  function DigitChar(d: nat): (c: char)
    requires d < 10
    ensures IsDigit(c) && DigitValue(c) == d
  {
    ('0' as int + d) as char
  }

  /** The decimal digits of a natural number, most significant first. */
  function Digits(n: nat): (ds: string)
    ensures |ds| > 0
    ensures forall i :: 0 <= i < |ds| ==> IsDigit(ds[i])
  {
    if n < 10 then [DigitChar(n)] else Digits(n / 10) + [DigitChar(n % 10)]
  }

  /** (string)$i for an integer. */
  function DecimalString(i: int): string {
    if i < 0 then "-" + Digits(-i) else Digits(i)
  }

  /** (int)$v */
  function IntOf(v: Value): (r: int)
    ensures v.Int? ==> r == v.i
    ensures v.Str? ==> PHP_INT_MIN <= r <= PHP_INT_MAX
  {
    match v
    case Null => 0
    case Bool(b) => if b then 1 else 0
    case Int(i) => i
    case Str(s) => IntOfString(s)
    case Arr(es) => if es == [] then 0 else 1
  }

  /** (bool)$v */
  function BoolOf(v: Value): (r: bool)
    ensures v.Bool? ==> r == v.b
  {
    match v
    case Null => false
    case Bool(b) => b
    case Int(i) => i != 0
    case Str(s) => s != "" && s != "0"
    case Arr(es) => es != []
  }

  /** (string)$v; an array converts to "Array" (with a warning). */
  function StringOf(v: Value): (r: string)
    ensures v.Str? ==> r == v.s
  {
    match v
    case Null => ""
    case Bool(b) => if b then "1" else ""
    case Int(i) => DecimalString(i)
    case Str(s) => s
    case Arr(_) => "Array"
  }

  lemma {:induction false} DigitsValueOfDigits(n: nat)
    ensures DigitsValue(Digits(n)) == n
    decreases n
  {
    var ds := Digits(n);
    if n >= 10 {
      var q, d := n / 10, n % 10;
      assert n == q * 10 + d;
      assert ds == Digits(q) + [DigitChar(d)];
      assert ds[..|ds| - 1] == Digits(q);
      DigitsValueOfDigits(q);
      assert DigitsValue(ds) == DigitsValue(Digits(q)) * 10 + DigitValue(DigitChar(d));
    } else {
      assert ds == [DigitChar(n)];
      assert ds[..0] == [];
    }
  }

  lemma {:induction false} LeadingDigitsOfDigits(ds: string)
    requires forall i :: 0 <= i < |ds| ==> IsDigit(ds[i])
    ensures LeadingDigits(ds) == ds
  {
    var l := LeadingDigits(ds);
    assert |l| == |ds|;
  }

  lemma {:induction false} SkipSpaceOfNumber(s: string)
    requires |s| > 0 && (IsDigit(s[0]) || s[0] == '-')
    ensures SkipSpace(s) == s
  {
  }

  lemma {:induction false} IntOfDigits(ds: string)
    requires |ds| > 0 && forall i :: 0 <= i < |ds| ==> IsDigit(ds[i])
    ensures IntOfString(ds) == Cap(DigitsValue(ds))
  {
    SkipSpaceOfNumber(ds);
    LeadingDigitsOfDigits(ds);
    assert ds[0] != '-' && ds[0] != '+';
  }

  lemma {:induction false} IntOfNegativeDigits(ds: string)
    requires |ds| > 0 && forall i :: 0 <= i < |ds| ==> IsDigit(ds[i])
    ensures IntOfString("-" + ds) == Cap(-(DigitsValue(ds) as int))
  {
    var s := "-" + ds;
    SkipSpaceOfNumber(s);
    var t := SkipSpace(s);
    assert t[0] == '-' && t[1..] == ds;
    LeadingDigitsOfDigits(ds);
    var n := DigitsValue(ds);
    assert DigitsValue(LeadingDigits(t[1..])) == n;
    assert IntOfString(s) == Cap(-(n as int));
  }

  /** (int)(string)$i == $i for every 64-bit integer. */
  lemma {:induction false} IntOfDecimalString(i: int)
    requires PHP_INT_MIN <= i <= PHP_INT_MAX
    ensures IntOfString(DecimalString(i)) == i
  {
    if i < 0 {
      IntOfNegatedNumeral(-i);
    } else {
      IntOfNumeral(i);
    }
  }

  lemma {:induction false} IntOfNumeral(n: nat)
    requires n <= PHP_INT_MAX
    ensures IntOfString(Digits(n)) == n
  {
    DigitsValueOfDigits(n);
    IntOfDigits(Digits(n));
    CapOfInt(n);
  }

  lemma {:induction false} IntOfNegatedNumeral(n: nat)
    requires PHP_INT_MIN <= -(n as int)
    ensures IntOfString("-" + Digits(n)) == -(n as int)
  {
    DigitsValueOfDigits(n);
    IntOfNegativeDigits(Digits(n));
    CapOfInt(-(n as int));
  }

  lemma CapOfInt(x: int)
    requires PHP_INT_MIN <= x <= PHP_INT_MAX
    ensures Cap(x) == x
  {
  }

  /**
   * A numeral beyond the 64-bit range but within the double range
   * saturates: (int) gives PHP_INT_MAX, or PHP_INT_MIN when negated.
   */
  lemma {:induction false} IntOfOverflowingNumeral(n: nat)
    requires PHP_INT_MAX < n < DOUBLE_OVERFLOW
    ensures IntOfString(Digits(n)) == PHP_INT_MAX
    ensures PHP_INT_MIN > -(n as int) ==> IntOfString("-" + Digits(n)) == PHP_INT_MIN
  {
    DigitsValueOfDigits(n);
    IntOfDigits(Digits(n));
    IntOfNegativeDigits(Digits(n));
  }

  /** A numeral beyond the double range reads as an infinite double, and (int) gives 0 for either sign. */
  lemma {:induction false} IntOfInfiniteNumeral(n: nat)
    requires n >= DOUBLE_OVERFLOW
    ensures IntOfString(Digits(n)) == 0
    ensures IntOfString("-" + Digits(n)) == 0
  {
    DigitsValueOfDigits(n);
    IntOfDigits(Digits(n));
    IntOfNegativeDigits(Digits(n));
  }
}
