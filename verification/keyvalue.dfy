/**
 * String-keyed access to the children of a tree: labels for classes, structs
 * and tuples, decimal indices for collections and tuples, leaf descriptions
 * for dictionary keys and set elements, and lookups through diff records on
 * both sides at once.
 */
module KeyValues {
  import opened Wrappers
  import opened Limns
  import opened Extensions

  // ---------------------------------------------------------------------------
  // Decimal integers, as the standard library reads and writes them
  // ---------------------------------------------------------------------------

  const IntMin: int := -0x8000_0000_0000_0000
  const IntMax: int := 0x7FFF_FFFF_FFFF_FFFF

  predicate IsDigit(c: char) {
    '0' <= c <= '9'
  }

  predicate AllDigits(s: string) {
    forall i :: 0 <= i < |s| ==> IsDigit(s[i])
  }

  function DigitValue(c: char): nat
    requires IsDigit(c)
  {
    (c as int) - ('0' as int)
  }

  function DigitChar(d: nat): (c: char)
    requires d < 10
    ensures IsDigit(c) && DigitValue(c) == d
  {
    (('0' as int) + d) as char
  }

  /** The value of a digit string, most significant digit first. */
  function DigitsValue(s: string): nat
    requires AllDigits(s)
  {
    if s == [] then 0 else DigitsValue(s[..|s| - 1]) * 10 + DigitValue(s[|s| - 1])
  }

  /** `Int(key)`: an optional sign and at least one digit, within the 64-bit range; anything else is nothing. */
  function ParseInt(s: string): (r: Option<int>)
    ensures r.Some? ==> IntMin <= r.value <= IntMax
    ensures s == [] ==> r.None?
  {
    if s == [] then None
    else
      var negative := s[0] == '-';
      var digits := if s[0] == '-' || s[0] == '+' then s[1..] else s;
      if digits == [] || !AllDigits(digits) then None
      else
        var magnitude: int := DigitsValue(digits);
        var v := if negative then 0 - magnitude else magnitude;
        if IntMin <= v <= IntMax then Some(v) else None
  }

  /** The decimal digits of `n`, without leading zeros. */
  function Digits(n: nat): (r: string)
    ensures r != [] && AllDigits(r) && DigitsValue(r) == n
    ensures r[0] != '-' && r[0] != '+'
  {
    if n < 10 then [DigitChar(n)]
    else
      var init := Digits(n / 10);
      var r := init + [DigitChar(n % 10)];
      assert r[..|r| - 1] == init;
      r
  }

  /** `"\(n)"` for an integer `n`. */
  function IntDescription(n: int): (r: string)
    ensures r != []
  {
    if n < 0 then "-" + Digits(-n) else Digits(n)
  }

  /** Reading back the description of a 64-bit integer gives the integer. */
  lemma ParseIntDescription(n: int)
    requires IntMin <= n <= IntMax
    ensures ParseInt(IntDescription(n)) == Some(n)
  {
    var s := IntDescription(n);
    if n < 0 {
      assert s[1..] == Digits(-n);
    }
  }

  // ---------------------------------------------------------------------------
  // Lookups
  // ---------------------------------------------------------------------------

  /** A leaf whose description is the key, or the key in double quotes (as strings are described). */
  predicate DescribedBy(x: Limn, key: string) {
    x.Value? && (x.description == key || x.description == "\"" + key + "\"")
  }

  /** Index of the first tree described by `key`. */
  function FirstDescribed(xs: seq<Limn>, key: string): (r: Option<nat>)
    ensures r.Some? ==> r.value < |xs| && DescribedBy(xs[r.value], key)
                        && forall j :: 0 <= j < r.value ==> !DescribedBy(xs[j], key)
    ensures r.None? ==> forall j :: 0 <= j < |xs| ==> !DescribedBy(xs[j], key)
  {
    if xs == [] then None
    else if DescribedBy(xs[0], key) then Some(0)
    else match FirstDescribed(xs[1..], key)
      case None => None
      case Some(i) => Some(i + 1)
  }

  function Keys(kvs: seq<KeyedLimn>): (r: seq<Limn>)
    ensures |r| == |kvs| && forall i :: 0 <= i < |kvs| ==> r[i] == kvs[i].key
  {
    seq(|kvs|, i requires 0 <= i < |kvs| => kvs[i].key)
  }

  /** A tuple element by decimal index first, by label otherwise. */
  function TupleLookup(ps: seq<LabeledLimn>, key: string): (r: Option<Limn>)
    ensures ParseInt(key).Some? && 0 <= ParseInt(key).value < |ps| ==> r == Some(ps[ParseInt(key).value].value)
    ensures !(ParseInt(key).Some? && 0 <= ParseInt(key).value < |ps|) ==> r == ValueOfLabel(ps, key)
  {
    var byIndex := match ParseInt(key)
      case Some(n) => (match SafeIndex(ps, n) case Some(p) => Some(p.value) case None => None)
      case None => None;
    if byIndex.Some? then byIndex else ValueOfLabel(ps, key)
  }

  /** `x[key]`. */
  function Lookup(x: Limn, key: string): (r: Option<Limn>)
    ensures key == [] ==> r.None?
    ensures key != [] && (x.Class? || (x.Struct? && !IsDiffStruct(x))) ==> r == ValueOfLabel(x.properties, key)
    ensures key != [] && x.Collection? ==>
              r == (match ParseInt(key) case Some(n) => SafeIndex(x.elements, n) case None => None)
    ensures key != [] && x.Dictionary? ==>
              (r.Some? <==> exists i :: 0 <= i < |x.keyValuePairs| && DescribedBy(x.keyValuePairs[i].key, key))
    ensures key != [] && x.Dictionary? && r.Some? ==>
              exists i :: 0 <= i < |x.keyValuePairs| && DescribedBy(x.keyValuePairs[i].key, key)
                          && r.value == x.keyValuePairs[i].value
                          && forall j :: 0 <= j < i ==> !DescribedBy(x.keyValuePairs[j].key, key)
    ensures key != [] && x.Set? ==> (r.Some? <==> exists i :: 0 <= i < |x.elements| && DescribedBy(x.elements[i], key))
    ensures key != [] && x.Set? && r.Some? ==> DescribedBy(r.value, key) && r.value in x.elements
    ensures key != [] && x.Tuple? ==> r == TupleLookup(x.tupleElements, key)
    ensures key != [] && x.Enum? && x.associatedValue.Some? && x.associatedValue.value.Tuple? ==>
              r == TupleLookup(x.associatedValue.value.tupleElements, key)
    ensures key != [] && x.Enum? && x.associatedValue.Some? && !x.associatedValue.value.Tuple? ==>
              r == (if key == "0" then x.associatedValue else None)
    ensures key != [] && IsDiffStruct(x) ==> r.Some? && IsDiffStruct(r.value)
    ensures (x.Enum? && x.associatedValue.None?) || x.Optional? || x.Value? || x.Omitted? ==> r.None?
    decreases x
  {
    if key == [] then None
    else
      match x
      case Class(_, _, ps) => ValueOfLabel(ps, key)
      case Collection(es) =>
        (match ParseInt(key) case Some(n) => SafeIndex(es, n) case None => None)
      case Dictionary(kvs) =>
        (match FirstDescribed(Keys(kvs), key) case Some(i) => Some(kvs[i].value) case None => None)
      case Enum(_, _, av) =>
        if av.None? then None
        else if av.value.Tuple? then TupleLookup(av.value.tupleElements, key)
        else if key == "0" then av
        else None
      case Optional(_) => None
      case Set(es) =>
        (match FirstDescribed(es, key) case Some(i) => Some(es[i]) case None => None)
      case Struct(name, ps) =>
        if name == DiffTypeName then
          var original := match FirstIndexOfLabel(ps, OriginalLabel)
            case Some(i) =>
              assert ps[i] in ps;
              Lookup(ps[i].value, key)
            case None => None;
          var update := match FirstIndexOfLabel(ps, UpdateLabel)
            case Some(i) =>
              assert ps[i] in ps;
              Lookup(ps[i].value, key)
            case None => None;
          Some(Encode(Diff(original, update)))
        else ValueOfLabel(ps, key)
      case Tuple(ps) => TupleLookup(ps, key)
      case Value(_) => None
      case Omitted(_) => None
  }

  /** `x[n]` for an integer key: the key is described in decimal first. */
  function LookupInt(x: Limn, n: int): Option<Limn> {
    Lookup(x, IntDescription(n))
  }
}
