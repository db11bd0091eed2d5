/**
 * Filtering a tree by a predicate. Nodes that neither match nor lie within
 * the match depth below a match, and that have no surviving child, collapse
 * to an omitted placeholder with reason `Filtered`; every ancestor of a
 * survivor is kept with its shape.
 *
 * The predicate is a parameter; the two public filters instantiate it with a
 * display-style test and with a pattern match on descriptions, the pattern
 * matcher itself being a parameter as well.
 */
module Filtering {
  import opened Wrappers
  import opened Limns

  /**
   * How far below the last match nodes are kept regardless of the predicate
   * (`currentMatchDepth`), how far a match reaches (`matchDepth`), and the
   * predicate.
   */
  datatype FilterContext = FilterContext(currentMatchDepth: int, matchDepth: int, includes: Limn -> bool)

  /** A new context; a negative match depth is raised to 0. */
  function NewContext(currentMatchDepth: int, matchDepth: int, includes: Limn -> bool): (c: FilterContext)
    ensures c.currentMatchDepth == currentMatchDepth && c.includes == includes
    ensures c.matchDepth >= 0 && c.matchDepth >= matchDepth
    ensures matchDepth >= 0 ==> c.matchDepth == matchDepth
  {
    FilterContext(currentMatchDepth, if matchDepth < 0 then 0 else matchDepth, includes)
  }

  /** One level further from the last match; never below 0. */
  function Decrementing(c: FilterContext): (r: FilterContext)
    ensures r.matchDepth == c.matchDepth && r.includes == c.includes
    ensures r.currentMatchDepth >= 0
    ensures c.currentMatchDepth > 0 ==> r.currentMatchDepth + 1 == c.currentMatchDepth
    ensures c.currentMatchDepth <= 0 ==> r.currentMatchDepth == 0
  {
    FilterContext(if c.currentMatchDepth - 1 < 0 then 0 else c.currentMatchDepth - 1, c.matchDepth, c.includes)
  }

  function Incrementing(c: FilterContext): (r: FilterContext)
    ensures r.matchDepth == c.matchDepth && r.includes == c.includes
    ensures r.currentMatchDepth > c.currentMatchDepth
  {
    FilterContext(c.currentMatchDepth + 1, c.matchDepth, c.includes)
  }

  /** Just below a match: the whole match depth is available again. */
  function Maximizing(c: FilterContext): (r: FilterContext)
    ensures r.matchDepth == c.matchDepth && r.includes == c.includes
    ensures r.currentMatchDepth == c.matchDepth
  {
    FilterContext(c.matchDepth, c.matchDepth, c.includes)
  }

  /** The context the children of a node are filtered with. */
  function ChildContext(c: FilterContext, matched: bool): FilterContext {
    if matched then Maximizing(c) else Decrementing(c)
  }

  /** Whether a node is kept regardless of its children. */
  predicate KeptAnyway(x: Limn, c: FilterContext) {
    c.includes(x) || c.currentMatchDepth > 0
  }

  const FilteredOut: Limn := Omitted(Filtered)

  /** A kept node: same kind, same name and address, same labels and child count. */
  predicate SameShape(x: Limn, r: Limn) {
    match x
    case Class(n, a, ps) => r.Class? && r.name == n && r.address == a && Labels(r.properties) == Labels(ps)
    case Collection(es) => r.Collection? && |r.elements| == |es|
    case Dictionary(kvs) => r.Dictionary? && |r.keyValuePairs| == |kvs|
    case Enum(n, cn, av) => r.Enum? && r.name == n && r.caseName == cn && r.associatedValue.Some? == av.Some?
    case Optional(w) => r.Optional? && r.wrapped.Some? == w.Some?
    case Set(es) => r.Set? && |r.elements| == |es|
    case Struct(n, ps) => r.Struct? && r.name == n && Labels(r.properties) == Labels(ps)
    case Tuple(ps) => r.Tuple? && Labels(r.tupleElements) == Labels(ps)
    case Value(_) => r == x
    case Omitted(_) => r == x
  }

  // ---------------------------------------------------------------------------
  // Recursive filtering, one function per node kind
  // ---------------------------------------------------------------------------

  function FilterRec(x: Limn, c: FilterContext): (r: Limn)
    ensures r == FilteredOut || SameShape(x, r)
    ensures !x.Optional? && KeptAnyway(x, c) ==> SameShape(x, r)
    ensures (x.Value? || x.Omitted?) && !KeptAnyway(x, c) ==> r == FilteredOut
    decreases x, 2
  {
    match x
    case Class(_, _, _) => FilterClass(x, c)
    case Collection(_) => FilterCollection(x, c)
    case Dictionary(_) => FilterDictionary(x, c)
    case Enum(_, _, _) => FilterEnum(x, c)
    case Optional(_) => FilterOptional(x, c)
    case Set(_) => FilterSet(x, c)
    case Struct(_, _) => FilterStruct(x, c)
    case Tuple(_) => FilterTuple(x, c)
    case Value(_) => FilterLeaf(x, c)
    case Omitted(_) => FilterLeaf(x, c)
  }

  /** Whether some filtered child is not an omitted placeholder. */
  predicate AnyLabeledSurvives(ps: seq<LabeledLimn>) {
    exists i :: 0 <= i < |ps| && !IsOmitted(ps[i].value)
  }

  predicate AnySurvives(es: seq<Limn>) {
    exists i :: 0 <= i < |es| && !IsOmitted(es[i])
  }

  /**
   * Classes: kept exactly when the class matches, lies within the match depth,
   * or keeps a property that is not omitted; the properties are filtered with
   * the maximised context under a match and the decremented one otherwise.
   */
  function FilterClass(x: Limn, c: FilterContext): (r: Limn)
    requires x.Class?
    ensures var cc := ChildContext(c, c.includes(x));
            && (r.Class? <==> KeptAnyway(x, c) || exists i :: 0 <= i < |x.properties| && !IsOmitted(FilterRec(x.properties[i].value, cc)))
            && (r.Class? ==> r.name == x.name && r.address == x.address && |r.properties| == |x.properties|
                             && forall i :: 0 <= i < |x.properties| ==>
                                  r.properties[i] == LabeledLimn(x.properties[i].name, FilterRec(x.properties[i].value, cc)))
            && (!r.Class? ==> r == FilteredOut)
    decreases x, 1
  {
    var matched := c.includes(x);
    var ps := FilterLabeled(x.properties, ChildContext(c, matched));
    if matched || c.currentMatchDepth > 0 || AnyLabeledSurvives(ps) then Class(x.name, x.address, ps)
    else FilteredOut
  }

  function FilterCollection(x: Limn, c: FilterContext): (r: Limn)
    requires x.Collection?
    ensures var cc := ChildContext(c, c.includes(x));
            && (r.Collection? <==> KeptAnyway(x, c) || exists i :: 0 <= i < |x.elements| && !IsOmitted(FilterRec(x.elements[i], cc)))
            && (r.Collection? ==> |r.elements| == |x.elements|
                                  && forall i :: 0 <= i < |x.elements| ==> r.elements[i] == FilterRec(x.elements[i], cc))
            && (!r.Collection? ==> r == FilteredOut)
    decreases x, 1
  {
    var matched := c.includes(x);
    var es := FilterAll(x.elements, ChildContext(c, matched));
    if matched || c.currentMatchDepth > 0 || AnySurvives(es) then Collection(es)
    else FilteredOut
  }

  /**
   * Dictionaries: an entry whose key and value both filter away becomes a pair
   * of `Filtered` placeholders; otherwise the side that filtered away is put
   * back as it was. The dictionary is kept when it matches, lies within the
   * match depth, or some entry is not filtered away on both sides.
   */
  function FilterDictionary(x: Limn, c: FilterContext): (r: Limn)
    requires x.Dictionary?
    ensures var cc := ChildContext(c, c.includes(x));
            && (r.Dictionary? <==> KeptAnyway(x, c) || exists i :: 0 <= i < |x.keyValuePairs| && !PairFilteredOut(x.keyValuePairs[i], cc))
            && (r.Dictionary? ==> |r.keyValuePairs| == |x.keyValuePairs|
                                  && forall i :: 0 <= i < |x.keyValuePairs| ==>
                                       r.keyValuePairs[i] == FilterPair(x.keyValuePairs[i], cc))
            && (!r.Dictionary? ==> r == FilteredOut)
    decreases x, 1
  {
    var matched := c.includes(x);
    var kvs := FilterKeyed(x.keyValuePairs, ChildContext(c, matched));
    if matched || c.currentMatchDepth > 0 || AnyPairSurvives(kvs) then Dictionary(kvs)
    else FilteredOut
  }

  /** Whether both sides of an entry filter away. */
  predicate PairFilteredOut(kv: KeyedLimn, c: FilterContext)
    decreases kv, 2
  {
    assert kv.key < kv && kv.value < kv;
    IsOmitted(FilterRec(kv.key, c)) && IsOmitted(FilterRec(kv.value, c))
  }

  function FilterPair(kv: KeyedLimn, c: FilterContext): (r: KeyedLimn)
    ensures PairFilteredOut(kv, c) ==> r == OmittedPair(Filtered)
    ensures !PairFilteredOut(kv, c) ==>
              && (IsOmitted(FilterRec(kv.key, c)) ==> r.key == kv.key)
              && (!IsOmitted(FilterRec(kv.key, c)) ==> r.key == FilterRec(kv.key, c))
              && (IsOmitted(FilterRec(kv.value, c)) ==> r.value == kv.value)
              && (!IsOmitted(FilterRec(kv.value, c)) ==> r.value == FilterRec(kv.value, c))
    decreases kv, 3
  {
    assert kv.key < kv && kv.value < kv;
    var k := FilterRec(kv.key, c);
    var v := FilterRec(kv.value, c);
    if IsOmitted(k) && IsOmitted(v) then OmittedPair(Filtered)
    else KeyedLimn(if IsOmitted(k) then kv.key else k, if IsOmitted(v) then kv.value else v)
  }

  predicate AnyPairSurvives(kvs: seq<KeyedLimn>) {
    exists i :: 0 <= i < |kvs| && kvs[i] != OmittedPair(Filtered)
  }

  /**
   * Enums: the payload, if any, is filtered; the enum is kept when it matches,
   * lies within the match depth, or its payload survives.
   */
  function FilterEnum(x: Limn, c: FilterContext): (r: Limn)
    requires x.Enum?
    ensures var cc := ChildContext(c, c.includes(x));
            && (r.Enum? <==> KeptAnyway(x, c) || (x.associatedValue.Some? && !IsOmitted(FilterRec(x.associatedValue.value, cc))))
            && (r.Enum? ==> r.name == x.name && r.caseName == x.caseName
                            && r.associatedValue == if x.associatedValue.Some? then Some(FilterRec(x.associatedValue.value, cc)) else None)
            && (!r.Enum? ==> r == FilteredOut)
    decreases x, 1
  {
    var matched := c.includes(x);
    var payload := if x.associatedValue.Some? then Some(FilterRec(x.associatedValue.value, ChildContext(c, matched))) else None;
    if matched || c.currentMatchDepth > 0 || (payload.Some? && !IsOmitted(payload.value)) then Enum(x.name, x.caseName, payload)
    else FilteredOut
  }

  /**
   * Optionals do not count as a level: a non-matching optional passes its
   * context to the wrapped value unchanged. An absent optional is kept only
   * when it matches. A matching optional whose value filters away is filtered
   * again one level deeper than the match depth, so the value is kept; so is
   * one within the match depth, one level deeper than the current depth.
   */
  function FilterOptional(x: Limn, c: FilterContext): (r: Limn)
    requires x.Optional?
    ensures x.wrapped.None? ==> (r == x <==> c.includes(x)) && (r != x ==> r == FilteredOut)
    ensures x.wrapped.Some? && c.includes(x) ==> r.Optional? && r.wrapped.Some?
    ensures x.wrapped.Some? && !c.includes(x) ==>
              (r.Optional? <==> c.currentMatchDepth > 0 || !IsOmitted(FilterRec(x.wrapped.value, c)))
    ensures x.wrapped.Some? && c.includes(x) && IsOmitted(FilterRec(x.wrapped.value, Maximizing(c))) ==>
              r == Optional(Some(FilterRec(x.wrapped.value, Incrementing(Maximizing(c)))))
    ensures !r.Optional? ==> r == FilteredOut
    decreases x, 1
  {
    var matched := c.includes(x);
    if x.wrapped.None? then (if matched then x else FilteredOut)
    else
      var v := x.wrapped.value;
      var fv := FilterRec(v, if matched then Maximizing(c) else c);
      if matched && IsOmitted(fv) then Optional(Some(FilterRec(v, Incrementing(Maximizing(c)))))
      else if !matched && c.currentMatchDepth > 0 && IsOmitted(fv) then Optional(Some(FilterRec(v, Incrementing(c))))
      else if matched || !IsOmitted(fv) then Optional(Some(fv))
      else FilteredOut
  }

  function FilterSet(x: Limn, c: FilterContext): (r: Limn)
    requires x.Set?
    ensures var cc := ChildContext(c, c.includes(x));
            && (r.Set? <==> KeptAnyway(x, c) || exists i :: 0 <= i < |x.elements| && !IsOmitted(FilterRec(x.elements[i], cc)))
            && (r.Set? ==> |r.elements| == |x.elements|
                           && forall i :: 0 <= i < |x.elements| ==> r.elements[i] == FilterRec(x.elements[i], cc))
            && (!r.Set? ==> r == FilteredOut)
    decreases x, 1
  {
    var matched := c.includes(x);
    var es := FilterAll(x.elements, ChildContext(c, matched));
    if matched || c.currentMatchDepth > 0 || AnySurvives(es) then Set(es)
    else FilteredOut
  }

  function FilterStruct(x: Limn, c: FilterContext): (r: Limn)
    requires x.Struct?
    ensures var cc := ChildContext(c, c.includes(x));
            && (r.Struct? <==> KeptAnyway(x, c) || exists i :: 0 <= i < |x.properties| && !IsOmitted(FilterRec(x.properties[i].value, cc)))
            && (r.Struct? ==> r.name == x.name && |r.properties| == |x.properties|
                              && forall i :: 0 <= i < |x.properties| ==>
                                   r.properties[i] == LabeledLimn(x.properties[i].name, FilterRec(x.properties[i].value, cc)))
            && (!r.Struct? ==> r == FilteredOut)
    decreases x, 1
  {
    var matched := c.includes(x);
    var ps := FilterLabeled(x.properties, ChildContext(c, matched));
    if matched || c.currentMatchDepth > 0 || AnyLabeledSurvives(ps) then Struct(x.name, ps)
    else FilteredOut
  }

  function FilterTuple(x: Limn, c: FilterContext): (r: Limn)
    requires x.Tuple?
    ensures var cc := ChildContext(c, c.includes(x));
            && (r.Tuple? <==> KeptAnyway(x, c) || exists i :: 0 <= i < |x.tupleElements| && !IsOmitted(FilterRec(x.tupleElements[i].value, cc)))
            && (r.Tuple? ==> |r.tupleElements| == |x.tupleElements|
                             && forall i :: 0 <= i < |x.tupleElements| ==>
                                  r.tupleElements[i] == LabeledLimn(x.tupleElements[i].name, FilterRec(x.tupleElements[i].value, cc)))
            && (!r.Tuple? ==> r == FilteredOut)
    decreases x, 1
  {
    var matched := c.includes(x);
    var ps := FilterLabeled(x.tupleElements, ChildContext(c, matched));
    if matched || c.currentMatchDepth > 0 || AnyLabeledSurvives(ps) then Tuple(ps)
    else FilteredOut
  }

  /** Values and omitted placeholders: kept unchanged exactly when they match or lie within the match depth. */
  function FilterLeaf(x: Limn, c: FilterContext): (r: Limn)
    requires x.Value? || x.Omitted?
    ensures KeptAnyway(x, c) ==> r == x
    ensures !KeptAnyway(x, c) ==> r == FilteredOut
  {
    if c.includes(x) || c.currentMatchDepth > 0 then x else FilteredOut
  }

  // ---------------------------------------------------------------------------
  // Child sequences
  // ---------------------------------------------------------------------------

  function FilterAll(es: seq<Limn>, c: FilterContext): (r: seq<Limn>)
    ensures |r| == |es| && forall i :: 0 <= i < |es| ==> r[i] == FilterRec(es[i], c)
    decreases es
  {
    if es == [] then [] else [FilterRec(es[0], c)] + FilterAll(es[1..], c)
  }

  function FilterLabeled(ps: seq<LabeledLimn>, c: FilterContext): (r: seq<LabeledLimn>)
    ensures |r| == |ps| && forall i :: 0 <= i < |ps| ==> r[i] == LabeledLimn(ps[i].name, FilterRec(ps[i].value, c))
    decreases ps
  {
    if ps == [] then [] else [LabeledLimn(ps[0].name, FilterRec(ps[0].value, c))] + FilterLabeled(ps[1..], c)
  }

  function FilterKeyed(kvs: seq<KeyedLimn>, c: FilterContext): (r: seq<KeyedLimn>)
    ensures |r| == |kvs| && forall i :: 0 <= i < |kvs| ==> r[i] == FilterPair(kvs[i], c)
    decreases kvs
  {
    if kvs == [] then [] else [FilterPair(kvs[0], c)] + FilterKeyed(kvs[1..], c)
  }

  // ---------------------------------------------------------------------------
  // The public filters
  // ---------------------------------------------------------------------------

  /** The kinds of node a display-style filter can ask for. */
  datatype DisplayStyle =
    | ClassStyle | CollectionStyle | DictionaryStyle | EnumStyle | OptionalStyle
    | SetStyle | StructStyle | TupleStyle | ValueStyle

  /** A node matches its own kind; an enum also matches the value style. Omitted placeholders match nothing. */
  predicate MatchesDisplayStyle(x: Limn, style: DisplayStyle) {
    match x
    case Class(_, _, _) => style == ClassStyle
    case Collection(_) => style == CollectionStyle
    case Dictionary(_) => style == DictionaryStyle
    case Enum(_, _, _) => style == EnumStyle || style == ValueStyle
    case Optional(_) => style == OptionalStyle
    case Set(_) => style == SetStyle
    case Struct(_, _) => style == StructStyle
    case Tuple(_) => style == TupleStyle
    case Value(_) => style == ValueStyle
    case Omitted(_) => false
  }

  /**
   * A node matches a description query when it is an enum whose case name,
   * bare or with a leading '.', matches the pattern, or a value whose
   * description does. `like(query, text)` is the pattern match.
   */
  predicate MatchesValue(x: Limn, query: string, like: (string, string) -> bool) {
    match x
    case Enum(_, caseName, _) => like(query, caseName) || like(query, "." + caseName)
    case Value(description) => like(query, description)
    case _ => false
  }

  function FilteredByDisplayStyle(x: Limn, style: DisplayStyle, matchDepth: int): (r: Limn)
    ensures r == FilteredOut || SameShape(x, r)
    ensures MatchesDisplayStyle(x, style) && !x.Optional? ==> SameShape(x, r)
  {
    FilterRec(x, NewContext(0, matchDepth, y => MatchesDisplayStyle(y, style)))
  }

  function FilteredByValue(x: Limn, query: string, matchDepth: int, like: (string, string) -> bool): (r: Limn)
    ensures r == FilteredOut || SameShape(x, r)
    ensures MatchesValue(x, query, like) ==> SameShape(x, r)
  {
    FilterRec(x, NewContext(0, matchDepth, y => MatchesValue(y, query, like)))
  }
}
