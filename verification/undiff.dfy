/**
 * Reverting a diffed tree to one of its sides: every diff record is replaced
 * by its original or its update (recursively), and a record without the
 * requested side disappears from its parent.
 */
module Undiffing {
  import opened Wrappers
  import opened Limns

  datatype Direction = ToOriginal | ToUpdate

  /** The property label a diff record stores the requested side under. */
  function SideLabel(dir: Direction): string {
    match dir
    case ToOriginal => OriginalLabel
    case ToUpdate => UpdateLabel
  }

  /** The requested side of a diff. */
  function Side(d: Diff, dir: Direction): Option<Limn> {
    match dir
    case ToOriginal => d.original
    case ToUpdate => d.update
  }

  /** Same node kind, and the same type name (and address) where the node has them. */
  predicate SameHead(x: Limn, y: Limn) {
    match x
    case Class(n, a, _) => y.Class? && y.name == n && y.address == a
    case Collection(_) => y.Collection?
    case Dictionary(_) => y.Dictionary?
    case Enum(n, c, _) => y.Enum? && y.name == n && y.caseName == c
    case Optional(_) => y.Optional?
    case Set(_) => y.Set?
    case Struct(n, _) => y.Struct? && y.name == n
    case Tuple(_) => y.Tuple?
    case Value(_) => x == y
    case Omitted(_) => x == y
  }

  function Undiff(x: Limn, dir: Direction): (r: Option<Limn>)
    ensures r.Some? ==> Plain(r.value) && NoNilEntries(r.value)
    ensures !IsDiffStruct(x) ==> r.Some? && SameHead(x, r.value)
    decreases x
  {
    match x
    case Struct(n, ps) =>
      if n == DiffTypeName then
        match FirstIndexOfLabel(ps, SideLabel(dir))
        case None => None
        case Some(i) => Undiff(ps[i].value, dir)
      else Some(Struct(n, UndiffLabeled(ps, dir)))
    case Class(n, a, ps) => Some(Class(n, a, UndiffLabeled(ps, dir)))
    case Collection(es) => Some(Collection(UndiffAll(es, dir)))
    case Dictionary(kvs) => Some(Dictionary(UndiffKeyed(kvs, dir)))
    case Enum(n, c, av) => Some(Enum(n, c, if av.Some? then Undiff(av.value, dir) else None))
    case Optional(w) => Some(Optional(if w.Some? then Undiff(w.value, dir) else None))
    case Set(es) => Some(Set(UndiffAll(es, dir)))
    case Tuple(ps) => Some(Tuple(UndiffLabeled(ps, dir)))
    case Value(_) => Some(x)
    case Omitted(_) => Some(x)
  }

  /** Undiffs every element, dropping those that have no requested side. */
  function UndiffAll(es: seq<Limn>, dir: Direction): (r: seq<Limn>)
    ensures |r| <= |es|
    ensures forall i :: 0 <= i < |r| ==> Plain(r[i]) && NoNilEntries(r[i])
    decreases es
  {
    if es == [] then []
    else
      var rest := UndiffAll(es[1..], dir);
      match Undiff(es[0], dir)
      case None => rest
      case Some(e) => [e] + rest
  }

  /** Undiffs every labelled value, dropping the pairs whose value has no requested side. */
  function UndiffLabeled(ps: seq<LabeledLimn>, dir: Direction): (r: seq<LabeledLimn>)
    ensures |r| <= |ps|
    ensures forall i :: 0 <= i < |r| ==> Plain(r[i].value) && NoNilEntries(r[i].value)
    decreases ps
  {
    if ps == [] then []
    else
      var rest := UndiffLabeled(ps[1..], dir);
      match Undiff(ps[0].value, dir)
      case None => rest
      case Some(v) => [LabeledLimn(ps[0].name, v)] + rest
  }

  /**
   * Undiffs one dictionary entry; the entry is dropped when its key or value
   * has no requested side or comes out as an absent optional.
   */
  function UndiffEntry(kv: KeyedLimn, dir: Direction): (r: Option<KeyedLimn>)
    ensures r.Some? ==>
              && r.value.key != NilOptional && r.value.value != NilOptional
              && Plain(r.value.key) && NoNilEntries(r.value.key)
              && Plain(r.value.value) && NoNilEntries(r.value.value)
    decreases kv
  {
    assert kv.key < kv && kv.value < kv;
    var k := Undiff(kv.key, dir);
    var v := Undiff(kv.value, dir);
    if k.None? || v.None? then None
    else if k.value == NilOptional || v.value == NilOptional then None
    else Some(KeyedLimn(k.value, v.value))
  }

  function UndiffKeyed(kvs: seq<KeyedLimn>, dir: Direction): (r: seq<KeyedLimn>)
    ensures |r| <= |kvs|
    ensures forall i :: 0 <= i < |r| ==>
              && r[i].key != NilOptional && r[i].value != NilOptional
              && Plain(r[i].key) && NoNilEntries(r[i].key)
              && Plain(r[i].value) && NoNilEntries(r[i].value)
    decreases kvs
  {
    if kvs == [] then []
    else
      var rest := UndiffKeyed(kvs[1..], dir);
      match UndiffEntry(kvs[0], dir)
      case None => rest
      case Some(e) => [e] + rest
  }

  // ---------------------------------------------------------------------------
  // Properties
  // ---------------------------------------------------------------------------

  /** A diff record undiffs to its requested side, itself undiffed; a missing side makes it vanish. */
  lemma UndiffEncode(d: Diff, dir: Direction)
    ensures Undiff(Encode(d), dir) == (match Side(d, dir)
                                       case None => None
                                       case Some(v) => Undiff(v, dir))
  {
    DecodeEncode(d);
    var x := Encode(d);
    assert ValueOfLabel(x.properties, SideLabel(dir)) == Side(d, dir);
  }

  /** A tree without diff records or absent-optional dictionary entries is left exactly as it is. */
  lemma {:induction false} UndiffIdentity(x: Limn, dir: Direction)
    requires Plain(x) && NoNilEntries(x)
    ensures Undiff(x, dir) == Some(x)
    decreases x
  {
    match x
    case Class(_, _, ps) => UndiffLabeledIdentity(ps, dir);
    case Collection(es) => UndiffAllIdentity(es, dir);
    case Dictionary(kvs) => UndiffKeyedIdentity(kvs, dir);
    case Enum(_, _, av) => if av.Some? { UndiffIdentity(av.value, dir); }
    case Optional(w) => if w.Some? { UndiffIdentity(w.value, dir); }
    case Set(es) => UndiffAllIdentity(es, dir);
    case Struct(_, ps) => UndiffLabeledIdentity(ps, dir);
    case Tuple(ps) => UndiffLabeledIdentity(ps, dir);
    case Value(_) =>
    case Omitted(_) =>
  }

  lemma {:induction false} UndiffAllIdentity(es: seq<Limn>, dir: Direction)
    requires forall i :: 0 <= i < |es| ==> Plain(es[i]) && NoNilEntries(es[i])
    ensures UndiffAll(es, dir) == es
    decreases es
  {
    if es != [] {
      UndiffIdentity(es[0], dir);
      UndiffAllIdentity(es[1..], dir);
    }
  }

  lemma {:induction false} UndiffLabeledIdentity(ps: seq<LabeledLimn>, dir: Direction)
    requires forall i :: 0 <= i < |ps| ==> Plain(ps[i].value) && NoNilEntries(ps[i].value)
    ensures UndiffLabeled(ps, dir) == ps
    decreases ps
  {
    if ps != [] {
      UndiffIdentity(ps[0].value, dir);
      UndiffLabeledIdentity(ps[1..], dir);
    }
  }

  lemma {:induction false} UndiffKeyedIdentity(kvs: seq<KeyedLimn>, dir: Direction)
    requires forall i :: 0 <= i < |kvs| ==>
               && kvs[i].key != NilOptional && kvs[i].value != NilOptional
               && Plain(kvs[i].key) && NoNilEntries(kvs[i].key)
               && Plain(kvs[i].value) && NoNilEntries(kvs[i].value)
    ensures UndiffKeyed(kvs, dir) == kvs
    decreases kvs
  {
    if kvs != [] {
      var kv := kvs[0];
      assert kv in kvs && kv.key < kv && kv.value < kv;
      UndiffIdentity(kv.key, dir);
      UndiffIdentity(kv.value, dir);
      assert UndiffEntry(kv, dir) == Some(kv);
      UndiffKeyedIdentity(kvs[1..], dir);
    }
  }

  /** Undiffing is idempotent: an undiffed tree undiffs to itself, in either direction. */
  lemma UndiffIdempotent(x: Limn, dir: Direction, again: Direction)
    requires Undiff(x, dir).Some?
    ensures Undiff(Undiff(x, dir).value, again) == Undiff(x, dir)
  {
    UndiffIdentity(Undiff(x, dir).value, again);
  }

  /** On a tree without diff records both directions agree. */
  lemma {:induction false} UndiffDirectionFree(x: Limn)
    requires Plain(x)
    ensures Undiff(x, ToOriginal) == Undiff(x, ToUpdate)
    decreases x
  {
    match x
    case Class(_, _, ps) => UndiffLabeledDirectionFree(ps);
    case Collection(es) => UndiffAllDirectionFree(es);
    case Dictionary(kvs) => UndiffKeyedDirectionFree(kvs);
    case Enum(_, _, av) => if av.Some? { UndiffDirectionFree(av.value); }
    case Optional(w) => if w.Some? { UndiffDirectionFree(w.value); }
    case Set(es) => UndiffAllDirectionFree(es);
    case Struct(_, ps) => UndiffLabeledDirectionFree(ps);
    case Tuple(ps) => UndiffLabeledDirectionFree(ps);
    case Value(_) =>
    case Omitted(_) =>
  }

  lemma {:induction false} UndiffAllDirectionFree(es: seq<Limn>)
    requires forall i :: 0 <= i < |es| ==> Plain(es[i])
    ensures UndiffAll(es, ToOriginal) == UndiffAll(es, ToUpdate)
    decreases es
  {
    if es != [] {
      UndiffDirectionFree(es[0]);
      UndiffAllDirectionFree(es[1..]);
    }
  }

  lemma {:induction false} UndiffLabeledDirectionFree(ps: seq<LabeledLimn>)
    requires forall i :: 0 <= i < |ps| ==> Plain(ps[i].value)
    ensures UndiffLabeled(ps, ToOriginal) == UndiffLabeled(ps, ToUpdate)
    decreases ps
  {
    if ps != [] {
      UndiffDirectionFree(ps[0].value);
      UndiffLabeledDirectionFree(ps[1..]);
    }
  }

  lemma {:induction false} UndiffKeyedDirectionFree(kvs: seq<KeyedLimn>)
    requires forall i :: 0 <= i < |kvs| ==> Plain(kvs[i].key) && Plain(kvs[i].value)
    ensures UndiffKeyed(kvs, ToOriginal) == UndiffKeyed(kvs, ToUpdate)
    decreases kvs
  {
    if kvs != [] {
      var kv := kvs[0];
      assert kv in kvs && kv.key < kv && kv.value < kv;
      UndiffDirectionFree(kv.key);
      UndiffDirectionFree(kv.value);
      UndiffKeyedDirectionFree(kvs[1..]);
    }
  }

  /** When no labelled value vanishes, every pair is kept in place with its label and its undiffed value. */
  lemma {:induction false} UndiffLabeledPointwise(ps: seq<LabeledLimn>, dir: Direction)
    requires forall i :: 0 <= i < |ps| ==> Undiff(ps[i].value, dir).Some?
    ensures |UndiffLabeled(ps, dir)| == |ps|
    ensures forall i :: 0 <= i < |ps| ==>
              UndiffLabeled(ps, dir)[i] == LabeledLimn(ps[i].name, Undiff(ps[i].value, dir).value)
    decreases ps
  {
    if ps != [] {
      assert forall i :: 0 <= i < |ps[1..]| ==> ps[1..][i] == ps[i + 1];
      UndiffLabeledPointwise(ps[1..], dir);
    }
  }

  /** When every labelled value vanishes, no pair is left. */
  lemma {:induction false} UndiffLabeledAllVanish(ps: seq<LabeledLimn>, dir: Direction)
    requires forall i :: 0 <= i < |ps| ==> Undiff(ps[i].value, dir).None?
    ensures UndiffLabeled(ps, dir) == []
    decreases ps
  {
    if ps != [] {
      assert forall i :: 0 <= i < |ps[1..]| ==> ps[1..][i] == ps[i + 1];
      UndiffLabeledAllVanish(ps[1..], dir);
    }
  }

  /** When no element vanishes, every element is kept in place, undiffed. */
  lemma {:induction false} UndiffAllPointwise(es: seq<Limn>, dir: Direction)
    requires forall i :: 0 <= i < |es| ==> Undiff(es[i], dir).Some?
    ensures |UndiffAll(es, dir)| == |es|
    ensures forall i :: 0 <= i < |es| ==> UndiffAll(es, dir)[i] == Undiff(es[i], dir).value
    decreases es
  {
    if es != [] {
      assert forall i :: 0 <= i < |es[1..]| ==> es[1..][i] == es[i + 1];
      UndiffAllPointwise(es[1..], dir);
    }
  }

  /** When every element vanishes, nothing is left. */
  lemma {:induction false} UndiffAllVanish(es: seq<Limn>, dir: Direction)
    requires forall i :: 0 <= i < |es| ==> Undiff(es[i], dir).None?
    ensures UndiffAll(es, dir) == []
    decreases es
  {
    if es != [] {
      assert forall i :: 0 <= i < |es[1..]| ==> es[1..][i] == es[i + 1];
      UndiffAllVanish(es[1..], dir);
    }
  }

  // ---------------------------------------------------------------------------
  // Unfolding helpers
  // ---------------------------------------------------------------------------

  lemma UndiffAllCons(x: Limn, rest: seq<Limn>, dir: Direction)
    ensures UndiffAll([x] + rest, dir) == if Undiff(x, dir).Some?
                                          then [Undiff(x, dir).value] + UndiffAll(rest, dir)
                                          else UndiffAll(rest, dir)
  {
    assert ([x] + rest)[0] == x;
    assert ([x] + rest)[1..] == rest;
  }

  lemma {:induction false} UndiffAllAppend(xs: seq<Limn>, ys: seq<Limn>, dir: Direction)
    ensures UndiffAll(xs + ys, dir) == UndiffAll(xs, dir) + UndiffAll(ys, dir)
    decreases xs
  {
    if xs == [] {
      assert xs + ys == ys;
    } else {
      var zs := xs + ys;
      assert zs[0] == xs[0] && zs[1..] == xs[1..] + ys;
      UndiffAllAppend(xs[1..], ys, dir);
      var tail, left, right := UndiffAll(zs[1..], dir), UndiffAll(xs[1..], dir), UndiffAll(ys, dir);
      assert tail == left + right;
      match Undiff(xs[0], dir)
      case None =>
      case Some(u) =>
        assert [u] + tail == ([u] + left) + right;
    }
  }

  lemma UndiffLabeledCons(p: LabeledLimn, rest: seq<LabeledLimn>, dir: Direction)
    ensures UndiffLabeled([p] + rest, dir) == if Undiff(p.value, dir).Some?
                                              then [LabeledLimn(p.name, Undiff(p.value, dir).value)] + UndiffLabeled(rest, dir)
                                              else UndiffLabeled(rest, dir)
  {
    assert ([p] + rest)[0] == p;
    assert ([p] + rest)[1..] == rest;
  }

  lemma UndiffKeyedCons(kv: KeyedLimn, rest: seq<KeyedLimn>, dir: Direction)
    ensures UndiffKeyed([kv] + rest, dir) == if UndiffEntry(kv, dir).Some?
                                             then [UndiffEntry(kv, dir).value] + UndiffKeyed(rest, dir)
                                             else UndiffKeyed(rest, dir)
  {
    assert ([kv] + rest)[0] == kv;
    assert ([kv] + rest)[1..] == rest;
  }
}
