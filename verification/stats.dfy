/**
 * Statistics of a tree: how many diff records, filtered and unresolved
 * placeholders it holds, how deep it goes and which type names it mentions.
 * `Fill` threads one accumulator through a depth-first walk the way the
 * library does; `TallyOf` computes the same numbers compositionally.
 */
module Statistics {
  import opened Wrappers
  import opened Limns

  datatype Stats = Stats(
    diffedEntriesCount: nat,
    filteredEntriesCount: nat,
    maxDepth: int,
    typeNames: set<string>,
    unresolvedEntriesCount: nat)

  /** The statistics before the walk: the depth starts at 1, everything else empty. */
  const InitialStats: Stats := Stats(0, 0, 1, {}, 0)

  function Max(a: int, b: int): int {
    if a < b then b else a
  }

  /** What the walk does when it leaves a node: record the node's depth as reached. */
  function Deepest(st: Stats, depth: int): (r: Stats)
    ensures r.maxDepth >= depth && r.maxDepth >= st.maxDepth
    ensures r.(maxDepth := st.maxDepth) == st
  {
    st.(maxDepth := Max(st.maxDepth, depth))
  }

  function Named(st: Stats, name: string): Stats {
    st.(typeNames := st.typeNames + {name})
  }

  /** The update side of a diff record, the only side the walk enters. */
  function UpdateSide(ps: seq<LabeledLimn>): (r: Option<Limn>)
    ensures r.Some? ==> r.value in LabeledValues(ps)
    ensures r == ValueOfLabel(ps, UpdateLabel)
  {
    match FirstIndexOfLabel(ps, UpdateLabel)
    case Some(i) => Some(ps[i].value)
    case None => None
  }

  /** The walk: `depth` is the depth on entering `x`, restored on leaving it. */
  function Fill(x: Limn, depth: int, st: Stats): (r: Stats)
    ensures r.maxDepth >= st.maxDepth
    ensures r.typeNames >= st.typeNames
    decreases x, 1
  {
    match x
    case Class(name, _, ps) => Deepest(FillLabeled(ps, depth + 1, Named(st, name)), depth + 1)
    case Collection(es) => Deepest(FillElements(es, depth + 1, st), depth + 1)
    case Dictionary(kvs) => Deepest(FillValues(kvs, depth + 1, st), depth + 1)
    case Enum(name, _, av) =>
      var named := Named(st, name);
      Deepest(if av.Some? then Fill(av.value, depth + 1, named) else named, depth + 1)
    case Optional(w) => Deepest(if w.Some? then Fill(w.value, depth, st) else st, depth)
    case Set(es) => Deepest(FillElements(es, depth + 1, st), depth + 1)
    case Struct(name, ps) =>
      if name == DiffTypeName then
        var counted := st.(diffedEntriesCount := st.diffedEntriesCount + 1);
        match FirstIndexOfLabel(ps, UpdateLabel)
        case Some(i) =>
          assert ps[i] in ps;
          Deepest(Fill(ps[i].value, depth, counted), depth)
        case None => Deepest(counted, depth)
      else Deepest(FillLabeled(ps, depth + 1, Named(st, name)), depth + 1)
    case Tuple(ps) => Deepest(FillLabeled(ps, depth + 1, st), depth + 1)
    case Value(_) => Deepest(st, depth + 1)
    case Omitted(reason) =>
      Deepest(
        match reason
        case Filtered => st.(filteredEntriesCount := st.filteredEntriesCount + 1)
        case Unresolved => st.(unresolvedEntriesCount := st.unresolvedEntriesCount + 1)
        case MaxDepthExceeded => st
        case ReferenceCycleDetected => st,
        depth)
  }

  function FillLabeled(ps: seq<LabeledLimn>, depth: int, st: Stats): (r: Stats)
    ensures r.maxDepth >= st.maxDepth
    ensures r.typeNames >= st.typeNames
    decreases ps, 0
  {
    if ps == [] then st
    else
      assert ps[0] in ps;
      FillLabeled(ps[1..], depth, Fill(ps[0].value, depth, st))
  }

  function FillElements(es: seq<Limn>, depth: int, st: Stats): (r: Stats)
    ensures r.maxDepth >= st.maxDepth
    ensures r.typeNames >= st.typeNames
    decreases es, 0
  {
    if es == [] then st
    else FillElements(es[1..], depth, Fill(es[0], depth, st))
  }

  /** Dictionary entries are walked through their values only. */
  function FillValues(kvs: seq<KeyedLimn>, depth: int, st: Stats): (r: Stats)
    ensures r.maxDepth >= st.maxDepth
    ensures r.typeNames >= st.typeNames
    decreases kvs, 0
  {
    if kvs == [] then st
    else
      var kv := kvs[0];
      assert kv in kvs && kv.value < kv;
      FillValues(kvs[1..], depth, Fill(kv.value, depth, st))
  }

  /** The statistics of a tree. */
  function StatsOf(x: Limn): (r: Stats)
    ensures r.maxDepth >= 1
  {
    Fill(x, 0, InitialStats)
  }

  // ---------------------------------------------------------------------------
  // The compositional reference
  // ---------------------------------------------------------------------------

  /** The contribution of a subtree, independent of where the walk meets it. */
  datatype Tally = Tally(diffs: nat, filtered: nat, unresolved: nat, height: nat, names: set<string>)

  const NoTally: Tally := Tally(0, 0, 0, 0, {})

  /** Two sibling contributions together: counts add, heights take the larger. */
  function Merge(a: Tally, b: Tally): Tally {
    Tally(a.diffs + b.diffs, a.filtered + b.filtered, a.unresolved + b.unresolved,
          Max(a.height, b.height), a.names + b.names)
  }

  function Deeper(t: Tally): Tally {
    t.(height := t.height + 1)
  }

  function WithName(t: Tally, name: string): Tally {
    t.(names := t.names + {name})
  }

  function TallyOf(x: Limn): (r: Tally)
    ensures x.Omitted? ==> r.diffs == 0 && r.height == 0 && r.names == {}
    ensures x.Omitted? ==> r.filtered == (if x.reason == Filtered then 1 else 0)
    ensures x.Omitted? ==> r.unresolved == (if x.reason == Unresolved then 1 else 0)
    ensures x.Value? ==> r == Tally(0, 0, 0, 1, {})
    decreases x, 1
  {
    match x
    case Class(name, _, ps) => Deeper(WithName(TallyLabeled(ps), name))
    case Collection(es) => Deeper(TallyElements(es))
    case Dictionary(kvs) => Deeper(TallyValues(kvs))
    case Enum(name, _, av) => Deeper(WithName(if av.Some? then TallyOf(av.value) else NoTally, name))
    case Optional(w) => if w.Some? then TallyOf(w.value) else NoTally
    case Set(es) => Deeper(TallyElements(es))
    case Struct(name, ps) =>
      if name == DiffTypeName then
        var t := match FirstIndexOfLabel(ps, UpdateLabel)
          case Some(i) =>
            assert ps[i] in ps;
            TallyOf(ps[i].value)
          case None => NoTally;
        t.(diffs := t.diffs + 1)
      else Deeper(WithName(TallyLabeled(ps), name))
    case Tuple(ps) => Deeper(TallyLabeled(ps))
    case Value(_) => Tally(0, 0, 0, 1, {})
    case Omitted(reason) =>
      Tally(0, if reason == Filtered then 1 else 0, if reason == Unresolved then 1 else 0, 0, {})
  }

  function TallyLabeled(ps: seq<LabeledLimn>): Tally
    decreases ps, 0
  {
    if ps == [] then NoTally
    else
      assert ps[0] in ps;
      Merge(TallyOf(ps[0].value), TallyLabeled(ps[1..]))
  }

  function TallyElements(es: seq<Limn>): Tally
    decreases es, 0
  {
    if es == [] then NoTally else Merge(TallyOf(es[0]), TallyElements(es[1..]))
  }

  function TallyValues(kvs: seq<KeyedLimn>): Tally
    decreases kvs, 0
  {
    if kvs == [] then NoTally
    else
      var kv := kvs[0];
      assert kv in kvs && kv.value < kv;
      Merge(TallyOf(kv.value), TallyValues(kvs[1..]))
  }

  /** Adds a subtree's contribution, met at entry depth `depth`, to the accumulated statistics. */
  function Apply(st: Stats, t: Tally, depth: int): Stats {
    Stats(st.diffedEntriesCount + t.diffs, st.filteredEntriesCount + t.filtered,
          Max(st.maxDepth, depth + t.height), st.typeNames + t.names,
          st.unresolvedEntriesCount + t.unresolved)
  }
}
