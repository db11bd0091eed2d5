/**
 * What diffing does to children it pairs by label, by key or by membership.
 *
 * The round-trip lemmas cover inputs whose labels and keys line up. The
 * lemmas here cover every input, and describe the result entry by entry:
 * - each old property or entry that has a value is diffed against the new
 *   one with its label or key, or is marked removed (a dictionary entry
 *   marks its key as well as its value);
 * - each new property or entry that has a value, and whose label or key no
 *   old one with a value carries, is appended. A property is appended
 *   as it is; a dictionary entry has its key and its value marked added;
 * - set members on both sides pass through unwrapped, and the others are
 *   marked removed or added.
 */
module DiffEntries {
  import opened Wrappers
  import opened Limns
  import Sequences
  import opened Diffing

  // ---------------------------------------------------------------------------
  // Properties of classes and structs
  // ---------------------------------------------------------------------------

  /** What an old property with a value becomes: diffed against the new property with its label, or a removal. */
  function OldProperty(p: LabeledLimn, news: seq<LabeledLimn>, d: Differ): LabeledLimn
    requires ValidDiffer(d)
  {
    match MatchLabel(news, p.name)
    case Some(j) => LabeledLimn(p.name, DiffRec(p.value, news[j].value, d))
    case None => LabeledLimn(p.name, Removal(p.value))
  }

  /** A new property that is appended: the first with its label to have a value, with a label no old property with a value carries. */
  predicate NewOnlyProperty(news: seq<LabeledLimn>, olds: seq<LabeledLimn>, m: int) {
    0 <= m < |news| && MatchLabel(news, news[m].name) == Some(m) && MatchLabel(olds, news[m].name).None?
  }

  lemma {:induction false} DiffLabeledFromMembers(olds: seq<LabeledLimn>, news: seq<LabeledLimn>, i: nat, d: Differ, p: LabeledLimn)
    requires ValidDiffer(d) && i <= |olds|
    ensures p in DiffLabeledFrom(olds, news, i, d) <==>
      exists k :: i <= k < |olds| && !IsOmitted(olds[k].value) && p == OldProperty(olds[k], news, d)
    decreases |olds| - i
  {
    if i < |olds| {
      DiffLabeledFromMembers(olds, news, i + 1, d, p);
      var rest := DiffLabeledFrom(olds, news, i + 1, d);
      var here := if IsOmitted(olds[i].value) then [] else [OldProperty(olds[i], news, d)];
      assert DiffLabeledFrom(olds, news, i, d) == here + rest;
      if exists k :: i <= k < |olds| && !IsOmitted(olds[k].value) && p == OldProperty(olds[k], news, d) {
        var k :| i <= k < |olds| && !IsOmitted(olds[k].value) && p == OldProperty(olds[k], news, d);
        if k == i {
          assert p in here;
        }
      }
    }
  }

  /** Every appended property is a new-only one at or after `j`. */
  lemma {:induction false} InsertedLabeledSound(news: seq<LabeledLimn>, olds: seq<LabeledLimn>, j: nat, p: LabeledLimn)
    requires j <= |news| && p in InsertedLabeled(news, olds, j)
    ensures exists m :: j <= m && NewOnlyProperty(news, olds, m) && p == news[m]
    decreases |news| - j
  {
    var rest := InsertedLabeled(news, olds, j + 1);
    if NewOnlyProperty(news, olds, j) && p == news[j] {
    } else {
      assert p in rest;
      InsertedLabeledSound(news, olds, j + 1, p);
    }
  }

  /** Every new-only property at or after `j` is appended. */
  lemma {:induction false} InsertedLabeledComplete(news: seq<LabeledLimn>, olds: seq<LabeledLimn>, j: nat, m: nat)
    requires j <= m && NewOnlyProperty(news, olds, m)
    ensures news[m] in InsertedLabeled(news, olds, j)
    decreases m - j
  {
    if j < m {
      InsertedLabeledComplete(news, olds, j + 1, m);
      var rest := InsertedLabeled(news, olds, j + 1);
      assert InsertedLabeled(news, olds, j) == rest || InsertedLabeled(news, olds, j) == [news[j]] + rest;
    }
  }

  lemma InsertedLabeledMembers(news: seq<LabeledLimn>, olds: seq<LabeledLimn>, j: nat, p: LabeledLimn)
    requires j <= |news|
    ensures p in InsertedLabeled(news, olds, j) <==>
      exists m :: j <= m && NewOnlyProperty(news, olds, m) && p == news[m]
  {
    if p in InsertedLabeled(news, olds, j) {
      InsertedLabeledSound(news, olds, j, p);
    }
    if exists m :: j <= m && NewOnlyProperty(news, olds, m) && p == news[m] {
      var m :| j <= m && NewOnlyProperty(news, olds, m) && p == news[m];
      InsertedLabeledComplete(news, olds, j, m);
    }
  }

  /**
   * The diffed properties are exactly the old properties with a value, each
   * diffed against its namesake or marked removed, and the new-only
   * properties, appended without a diff record.
   */
  lemma DiffLabeledMembers(olds: seq<LabeledLimn>, news: seq<LabeledLimn>, d: Differ, p: LabeledLimn)
    requires ValidDiffer(d)
    ensures p in DiffLabeled(olds, news, d) <==>
      || (exists k :: 0 <= k < |olds| && !IsOmitted(olds[k].value) && p == OldProperty(olds[k], news, d))
      || (exists m :: NewOnlyProperty(news, olds, m) && p == news[m])
  {
    DiffLabeledFromMembers(olds, news, 0, d, p);
    InsertedLabeledMembers(news, olds, 0, p);
  }

  /** An old property with a value and no namesake on the new side is kept under its label as a removal. */
  lemma RemovedPropertyMarked(olds: seq<LabeledLimn>, news: seq<LabeledLimn>, d: Differ, k: nat)
    requires ValidDiffer(d) && k < |olds| && !IsOmitted(olds[k].value)
    requires forall j :: 0 <= j < |news| ==> news[j].name != olds[k].name || IsOmitted(news[j].value)
    ensures LabeledLimn(olds[k].name, Removal(olds[k].value)) in DiffLabeled(olds, news, d)
  {
    DiffLabeledMembers(olds, news, d, OldProperty(olds[k], news, d));
  }

  /** An old property with a value and a namesake on the new side has its value diffed against the namesake's. */
  lemma MatchedPropertyDiffed(olds: seq<LabeledLimn>, news: seq<LabeledLimn>, d: Differ, k: nat, j: nat)
    requires ValidDiffer(d) && k < |olds| && !IsOmitted(olds[k].value)
    requires MatchLabel(news, olds[k].name) == Some(j)
    ensures LabeledLimn(olds[k].name, DiffRec(olds[k].value, news[j].value, d)) in DiffLabeled(olds, news, d)
  {
    DiffLabeledMembers(olds, news, d, OldProperty(olds[k], news, d));
  }

  /** A new-only property is appended exactly as it is, so towards the original it is not removed again. */
  lemma AddedPropertyPlain(olds: seq<LabeledLimn>, news: seq<LabeledLimn>, d: Differ, m: nat)
    requires ValidDiffer(d) && NewOnlyProperty(news, olds, m)
    ensures news[m] in DiffLabeled(olds, news, d)
  {
    DiffLabeledMembers(olds, news, d, news[m]);
  }

  // ---------------------------------------------------------------------------
  // Dictionary entries
  // ---------------------------------------------------------------------------

  /** What an old entry with a value becomes: key and value diffed against the new entry with its key, or both marked removed. */
  function OldEntry(kv: KeyedLimn, news: seq<KeyedLimn>, d: Differ): KeyedLimn
    requires ValidDiffer(d)
  {
    match MatchKey(news, kv.key)
    case Some(j) => KeyedLimn(DiffRec(kv.key, news[j].key, d), DiffRec(kv.value, news[j].value, d))
    case None => KeyedLimn(Removal(kv.key), Removal(kv.value))
  }

  /** A new entry that is appended: the first with its key to have a value, with a key no old entry with a value carries. */
  predicate NewOnlyEntry(news: seq<KeyedLimn>, olds: seq<KeyedLimn>, m: int) {
    0 <= m < |news| && MatchKey(news, news[m].key) == Some(m) && MatchKey(olds, news[m].key).None?
  }

  /** How a new-only entry is appended: key and value both marked added. */
  function AddedEntry(kv: KeyedLimn): KeyedLimn {
    KeyedLimn(Addition(kv.key), Addition(kv.value))
  }

  lemma {:induction false} DiffKeyedFromMembers(olds: seq<KeyedLimn>, news: seq<KeyedLimn>, i: nat, d: Differ, e: KeyedLimn)
    requires ValidDiffer(d) && i <= |olds|
    ensures e in DiffKeyedFrom(olds, news, i, d) <==>
      exists k :: i <= k < |olds| && !IsOmitted(olds[k].value) && e == OldEntry(olds[k], news, d)
    decreases |olds| - i
  {
    if i < |olds| {
      DiffKeyedFromMembers(olds, news, i + 1, d, e);
      var rest := DiffKeyedFrom(olds, news, i + 1, d);
      var here := if IsOmitted(olds[i].value) then [] else [OldEntry(olds[i], news, d)];
      assert DiffKeyedFrom(olds, news, i, d) == here + rest;
      if exists k :: i <= k < |olds| && !IsOmitted(olds[k].value) && e == OldEntry(olds[k], news, d) {
        var k :| i <= k < |olds| && !IsOmitted(olds[k].value) && e == OldEntry(olds[k], news, d);
        if k == i {
          assert e in here;
        }
      }
    }
  }

  lemma {:induction false} InsertedKeyedMembers(news: seq<KeyedLimn>, olds: seq<KeyedLimn>, j: nat, e: KeyedLimn)
    requires j <= |news|
    ensures e in InsertedKeyed(news, olds, j) <==>
      exists m :: j <= m && NewOnlyEntry(news, olds, m) && e == AddedEntry(news[m])
    decreases |news| - j
  {
    if j < |news| {
      InsertedKeyedMembers(news, olds, j + 1, e);
      var rest := InsertedKeyed(news, olds, j + 1);
      var here := if NewOnlyEntry(news, olds, j) then [AddedEntry(news[j])] else [];
      assert InsertedKeyed(news, olds, j) == here + rest;
      if e in here {
        assert NewOnlyEntry(news, olds, j) && e == AddedEntry(news[j]);
      }
      if exists m :: j <= m && NewOnlyEntry(news, olds, m) && e == AddedEntry(news[m]) {
        var m :| j <= m && NewOnlyEntry(news, olds, m) && e == AddedEntry(news[m]);
        if m == j {
          assert e in here;
        } else {
          assert e in rest;
        }
      }
    }
  }

  /**
   * The diffed entries are exactly the old entries with a value, each diffed
   * against the entry with its key or marked removed (key and value), and the
   * new-only entries, marked added (key and value).
   */
  lemma DiffKeyedMembers(olds: seq<KeyedLimn>, news: seq<KeyedLimn>, d: Differ, e: KeyedLimn)
    requires ValidDiffer(d)
    ensures e in DiffKeyed(olds, news, d) <==>
      || (exists k :: 0 <= k < |olds| && !IsOmitted(olds[k].value) && e == OldEntry(olds[k], news, d))
      || (exists m :: NewOnlyEntry(news, olds, m) && e == AddedEntry(news[m]))
  {
    DiffKeyedFromMembers(olds, news, 0, d, e);
    InsertedKeyedMembers(news, olds, 0, e);
  }

  /** An old entry with a value whose key the new side lacks has key and value marked removed. */
  lemma RemovedEntryMarked(olds: seq<KeyedLimn>, news: seq<KeyedLimn>, d: Differ, k: nat)
    requires ValidDiffer(d) && k < |olds| && !IsOmitted(olds[k].value)
    requires forall j :: 0 <= j < |news| ==> news[j].key != olds[k].key || IsOmitted(news[j].value)
    ensures KeyedLimn(Removal(olds[k].key), Removal(olds[k].value)) in DiffKeyed(olds, news, d)
  {
    DiffKeyedMembers(olds, news, d, OldEntry(olds[k], news, d));
  }

  /** An old entry with a value whose key the new side has too has key and value diffed against that entry's. */
  lemma MatchedEntryDiffed(olds: seq<KeyedLimn>, news: seq<KeyedLimn>, d: Differ, k: nat, j: nat)
    requires ValidDiffer(d) && k < |olds| && !IsOmitted(olds[k].value)
    requires MatchKey(news, olds[k].key) == Some(j)
    ensures KeyedLimn(DiffRec(olds[k].key, news[j].key, d), DiffRec(olds[k].value, news[j].value, d)) in DiffKeyed(olds, news, d)
  {
    DiffKeyedMembers(olds, news, d, OldEntry(olds[k], news, d));
  }

  /** A new-only entry is appended with key and value marked added. */
  lemma AddedEntryMarked(olds: seq<KeyedLimn>, news: seq<KeyedLimn>, d: Differ, m: nat)
    requires ValidDiffer(d) && NewOnlyEntry(news, olds, m)
    ensures KeyedLimn(Addition(news[m].key), Addition(news[m].value)) in DiffKeyed(olds, news, d)
  {
    DiffKeyedMembers(olds, news, d, AddedEntry(news[m]));
  }

  // ---------------------------------------------------------------------------
  // Set members
  // ---------------------------------------------------------------------------

  /** The marked members are the survivors, unwrapped, and the other old members as removals. */
  lemma MarkRemovedMembers(olds: seq<Limn>, news: seq<Limn>, x: Limn)
    ensures x in MarkRemoved(olds, news) <==>
      (x in olds && x in news) || (exists y :: y in olds && y !in news && x == Removal(y))
  {
    var r := MarkRemoved(olds, news);
    if x in r {
      var i :| 0 <= i < |r| && r[i] == x;
      assert olds[i] in olds;
    }
    if x in olds && x in news {
      var i :| 0 <= i < |olds| && olds[i] == x;
      assert r[i] == x;
    }
    if exists y :: y in olds && y !in news && x == Removal(y) {
      var y :| y in olds && y !in news && x == Removal(y);
      var i :| 0 <= i < |olds| && olds[i] == y;
      assert r[i] == x;
    }
  }

  /** The added members are exactly the given members, each marked added. */
  lemma AdditionsMembers(news: seq<Limn>, x: Limn)
    ensures x in Additions(news) <==> exists y :: y in news && x == Addition(y)
  {
    var r := Additions(news);
    if x in r {
      var i :| 0 <= i < |r| && r[i] == x;
      assert news[i] in news;
    }
    if exists y :: y in news && x == Addition(y) {
      var y :| y in news && x == Addition(y);
      var i :| 0 <= i < |news| && news[i] == y;
      assert r[i] == x;
    }
  }

  /**
   * The diffed set holds exactly the members both sides have, unwrapped; the
   * old-only members, marked removed; and the new-only members, marked added.
   * Omitted placeholders take no part.
   */
  lemma DiffSetElementsMembers(olds: seq<Limn>, news: seq<Limn>, x: Limn)
    ensures x in DiffSetElements(olds, news) <==>
      || (x in olds && x in news && !IsOmitted(x))
      || (exists y :: y in olds && !IsOmitted(y) && y !in news && x == Removal(y))
      || (exists y :: y in news && !IsOmitted(y) && y !in olds && x == Addition(y))
  {
    var oldMembers, newMembers := SetMembers(olds), SetMembers(news);
    var newOnly := Sequences.Drop(newMembers, oldMembers);
    assert DiffSetElements(olds, news) == MarkRemoved(oldMembers, newMembers) + Additions(newOnly);
    MarkRemovedMembers(oldMembers, newMembers, x);
    AdditionsMembers(newOnly, x);
  }
}
