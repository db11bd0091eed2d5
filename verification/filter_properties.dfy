/**
 * What filtering promises: more match depth never loses a node, a predicate
 * that accepts everything changes nothing, and one that accepts nothing
 * filters the whole tree away.
 */
module FilterProperties {
  import opened Wrappers
  import opened Limns
  import opened Filtering
  import Sequences

  /** Kept nodes stay kept when the current match depth grows. */
  lemma {:induction false} FilterKeepMonotone(x: Limn, c: FilterContext, k: int)
    requires k >= c.currentMatchDepth
    ensures !IsOmitted(FilterRec(x, c)) ==> !IsOmitted(FilterRec(x, c.(currentMatchDepth := k)))
    decreases x
  {
    var c2 := c.(currentMatchDepth := k);
    if x.Optional? && x.wrapped.Some? && !c.includes(x) && k <= 0 {
      FilterKeepMonotone(x.wrapped.value, c, k);
    } else if !x.Optional? && !KeptAnyway(x, c2) {
      assert Decrementing(c) == Decrementing(c2);
    }
  }

  /** No dictionary entry anywhere has both its key and its value omitted. */
  predicate NoOmittedPairs(x: Limn) {
    match x
    case Class(_, _, ps) => forall i :: 0 <= i < |ps| ==> NoOmittedPairs(ps[i].value)
    case Collection(es) => forall i :: 0 <= i < |es| ==> NoOmittedPairs(es[i])
    case Dictionary(kvs) =>
      forall i :: 0 <= i < |kvs| ==>
        && !(IsOmitted(kvs[i].key) && IsOmitted(kvs[i].value))
        && NoOmittedPairs(kvs[i].key) && NoOmittedPairs(kvs[i].value)
    case Enum(_, _, av) => av.Some? ==> NoOmittedPairs(av.value)
    case Optional(w) => w.Some? ==> NoOmittedPairs(w.value)
    case Set(es) => forall i :: 0 <= i < |es| ==> NoOmittedPairs(es[i])
    case Struct(_, ps) => forall i :: 0 <= i < |ps| ==> NoOmittedPairs(ps[i].value)
    case Tuple(ps) => forall i :: 0 <= i < |ps| ==> NoOmittedPairs(ps[i].value)
    case Value(_) => true
    case Omitted(_) => true
  }

  /**
   * A predicate that accepts every node leaves the tree as it is. (A
   * dictionary entry whose key and value are both omitted placeholders is the
   * exception: it is rewritten to a pair of `Filtered` placeholders.)
   */
  lemma {:induction false} FilterAcceptAll(x: Limn, c: FilterContext)
    requires forall y :: c.includes(y)
    requires NoOmittedPairs(x)
    ensures FilterRec(x, c) == x
    decreases x
  {
    var cc := Maximizing(c);
    match x
    case Class(_, _, ps) =>
      forall i | 0 <= i < |ps| ensures FilterRec(ps[i].value, cc) == ps[i].value {
        FilterAcceptAll(ps[i].value, cc);
      }
      assert FilterClass(x, c).properties == ps;
    case Collection(es) =>
      forall i | 0 <= i < |es| ensures FilterRec(es[i], cc) == es[i] {
        FilterAcceptAll(es[i], cc);
      }
      assert FilterCollection(x, c).elements == es;
    case Dictionary(kvs) =>
      forall i | 0 <= i < |kvs| ensures FilterPair(kvs[i], cc) == kvs[i] {
        var kv := kvs[i];
        assert kv in kvs && kv.key < kv && kv.value < kv;
        FilterAcceptAll(kv.key, cc);
        FilterAcceptAll(kv.value, cc);
      }
      assert FilterDictionary(x, c).keyValuePairs == kvs;
    case Enum(_, _, av) =>
      if av.Some? { FilterAcceptAll(av.value, cc); }
    case Optional(w) =>
      if w.Some? {
        FilterAcceptAll(w.value, cc);
        FilterAcceptAll(w.value, Incrementing(cc));
      }
    case Set(es) =>
      forall i | 0 <= i < |es| ensures FilterRec(es[i], cc) == es[i] {
        FilterAcceptAll(es[i], cc);
      }
      assert FilterSet(x, c).elements == es;
    case Struct(_, ps) =>
      forall i | 0 <= i < |ps| ensures FilterRec(ps[i].value, cc) == ps[i].value {
        FilterAcceptAll(ps[i].value, cc);
      }
      assert FilterStruct(x, c).properties == ps;
    case Tuple(ps) =>
      forall i | 0 <= i < |ps| ensures FilterRec(ps[i].value, cc) == ps[i].value {
        FilterAcceptAll(ps[i].value, cc);
      }
      assert FilterTuple(x, c).tupleElements == ps;
    case Value(_) =>
    case Omitted(_) =>
  }

  /** A predicate that accepts nothing, outside any match depth, filters the whole tree away. */
  lemma {:induction false} FilterAcceptNone(x: Limn, c: FilterContext)
    requires forall y :: !c.includes(y)
    requires c.currentMatchDepth <= 0
    ensures FilterRec(x, c) == FilteredOut
    decreases x
  {
    var cc := Decrementing(c);
    match x
    case Class(_, _, ps) =>
      forall i | 0 <= i < |ps| ensures IsOmitted(FilterRec(ps[i].value, cc)) {
        FilterAcceptNone(ps[i].value, cc);
      }
    case Collection(es) =>
      forall i | 0 <= i < |es| ensures IsOmitted(FilterRec(es[i], cc)) {
        FilterAcceptNone(es[i], cc);
      }
    case Dictionary(kvs) =>
      forall i | 0 <= i < |kvs| ensures PairFilteredOut(kvs[i], cc) {
        var kv := kvs[i];
        assert kv in kvs && kv.key < kv && kv.value < kv;
        FilterAcceptNone(kv.key, cc);
        FilterAcceptNone(kv.value, cc);
      }
    case Enum(_, _, av) =>
      if av.Some? { FilterAcceptNone(av.value, cc); }
    case Optional(w) =>
      if w.Some? { FilterAcceptNone(w.value, c); }
    case Set(es) =>
      forall i | 0 <= i < |es| ensures IsOmitted(FilterRec(es[i], cc)) {
        FilterAcceptNone(es[i], cc);
      }
    case Struct(_, ps) =>
      forall i | 0 <= i < |ps| ensures IsOmitted(FilterRec(ps[i].value, cc)) {
        FilterAcceptNone(ps[i].value, cc);
      }
    case Tuple(ps) =>
      forall i | 0 <= i < |ps| ensures IsOmitted(FilterRec(ps[i].value, cc)) {
        FilterAcceptNone(ps[i].value, cc);
      }
    case Value(_) =>
    case Omitted(_) =>
  }

  // ---------------------------------------------------------------------------
  // Scenarios
  // ---------------------------------------------------------------------------

  /**
   * A wildcard pattern match in the style of a `LIKE` comparison: `*` matches
   * any run of characters, `?` any one character, everything else itself.
   */
  predicate Like(pattern: string, text: string)
    decreases |pattern| + |text|
  {
    if pattern == [] then text == []
    else if pattern[0] == '*' then Like(pattern[1..], text) || (text != [] && Like(pattern, text[1..]))
    else text != [] && (pattern[0] == '?' || pattern[0] == text[0]) && Like(pattern[1..], text[1..])
  }

  /** A pattern without wildcards matches exactly itself. */
  lemma {:induction false} LikeLiteral(pattern: string, text: string)
    requires forall i :: 0 <= i < |pattern| ==> pattern[i] != '*' && pattern[i] != '?'
    ensures Like(pattern, text) <==> pattern == text
    decreases |pattern|
  {
    if pattern != [] && text != [] {
      LikeLiteral(pattern[1..], text[1..]);
      if pattern[1..] == text[1..] && pattern[0] == text[0] {
        assert pattern == [pattern[0]] + pattern[1..];
        assert text == [text[0]] + text[1..];
      }
    }
  }

  const SimpleClass: Limn :=
    Class("LimnTests.SwiftClass.Simple", "0x1", [
      LabeledLimn("firstProperty", Value("77")),
      LabeledLimn("secondProperty", Value("\"Hello world!\""))
    ])

  /** No description of the class contains "world" as its whole text: everything is filtered. */
  lemma FilterValueWorld()
    ensures FilteredByValue(SimpleClass, "world", 0, Like) == FilteredOut
  {
    LikeLiteral("world", "77");
    LikeLiteral("world", "\"Hello world!\"");
    var c := NewContext(0, 0, y => MatchesValue(y, "world", Like));
    assert !IsOmitted(FilterRec(Value("77"), Decrementing(c))) ==> false;
  }

  /** "*world*" matches the quoted greeting (through its suffix "world!\"") but not "77". */
  lemma WorldMatches()
    ensures Like("*world*", "\"Hello world!\"") && !Like("*world*", "77")
  {
    WorldMatchesGreeting();
    WorldRejectsNumber();
  }

  /** "*world*" does not match "77": no suffix of it starts with 'w'. */
  lemma WorldRejectsNumber()
    ensures !Like("*world*", "77")
  {
    var p := "*world*";
    assert p[1..] == "world*";
    assert !Like("world*", "");
    assert !Like(p, "") by { assert ""[..] == ""; }
    assert !Like("world*", "7");
    assert "7"[1..] == "";
    assert !Like(p, "7");
    assert !Like("world*", "77");
    assert "77"[1..] == "7";
  }

  /** "*world*" matches the quoted greeting: the inner word sits at offset 7. */
  lemma WorldMatchesGreeting()
    ensures Like("*world*", "\"Hello world!\"")
  {
    var p := "*world*";
    var h := "\"Hello world!\"";
    var tail := "!\"";
    assert h[7..] == "world" + tail;
    assert p[1..] == "world" + "*";
    LikeStarAll(tail);
    LikeSameStart("world", "*", tail);
    assert Like(p, h[7..]);
    LikeStarSuffix(p, h, 7);
  }

  /** A lone star matches any text. */
  lemma {:induction false} LikeStarAll(t: string)
    ensures Like("*", t)
    decreases |t|
  {
    assert "*"[1..] == [];
    if t != [] {
      LikeStarAll(t[1..]);
    }
  }

  /** A literal start shared by pattern and text can be matched away. */
  lemma {:induction false} LikeSameStart(w: string, q: string, u: string)
    requires forall i :: 0 <= i < |w| ==> w[i] != '*'
    requires Like(q, u)
    ensures Like(w + q, w + u)
    decreases |w|
  {
    if w != [] {
      assert forall i :: 0 <= i < |w[1..]| ==> w[1..][i] == w[i + 1];
      LikeSameStart(w[1..], q, u);
      Sequences.TailOfAppend(w, q);
      Sequences.TailOfAppend(w, u);
      LikeSameCharacter(w + q, w + u);
    } else {
      assert w + q == q && w + u == u;
    }
  }

  /** A literal character matches the same character. */
  lemma LikeSameCharacter(p: string, t: string)
    requires p != [] && t != [] && p[0] != '*' && p[0] == t[0] && Like(p[1..], t[1..])
    ensures Like(p, t)
  {
  }

  /** A pattern starting with a star that matches a suffix of the text matches the text. */
  lemma {:induction false} LikeStarSuffix(p: string, t: string, i: nat)
    requires p != [] && p[0] == '*' && i <= |t| && Like(p, t[i..])
    ensures Like(p, t)
    decreases i
  {
    if i > 0 {
      assert t[1..][i - 1..] == t[i..];
      LikeStarSuffix(p, t[1..], i - 1);
    } else {
      assert t[0..] == t;
    }
  }

  /**
   * "*world*" keeps the class with only the property whose description
   * contains "world", for any matcher that agrees with `Like` on the two
   * descriptions (`WorldMatches`).
   */
  lemma FilterValueContainsWorld(like: (string, string) -> bool)
    requires like("*world*", "\"Hello world!\"") && !like("*world*", "77")
    ensures FilteredByValue(SimpleClass, "*world*", 0, like) ==
            Class("LimnTests.SwiftClass.Simple", "0x1", [
              LabeledLimn("firstProperty", FilteredOut),
              LabeledLimn("secondProperty", Value("\"Hello world!\""))
            ])
  {
    var hello := "\"Hello world!\"";
    var c := NewContext(0, 0, y => MatchesValue(y, "*world*", like));
    var cc := Decrementing(c);
    assert FilterRec(Value("77"), cc) == FilteredOut;
    assert FilterRec(Value(hello), cc) == Value(hello);
    var ps := SimpleClass.properties;
    var fs := [LabeledLimn("firstProperty", FilteredOut), LabeledLimn("secondProperty", Value(hello))];
    assert FilterLabeled(ps, cc) == fs;
    assert AnyLabeledSurvives(fs) by { assert !IsOmitted(fs[1].value); }
  }

  /** "77" keeps the class with only the property described as "77". */
  lemma FilterValueExact()
    ensures FilteredByValue(SimpleClass, "77", 0, Like) ==
            Class("LimnTests.SwiftClass.Simple", "0x1", [
              LabeledLimn("firstProperty", Value("77")),
              LabeledLimn("secondProperty", FilteredOut)
            ])
  {
    var hello := "\"Hello world!\"";
    LikeLiteral("77", "77");
    LikeLiteral("77", hello);
    var c := NewContext(0, 0, y => MatchesValue(y, "77", Like));
    var cc := Decrementing(c);
    assert FilterRec(Value("77"), cc) == Value("77");
    assert FilterRec(Value(hello), cc) == FilteredOut;
    var ps := SimpleClass.properties;
    var fs := [LabeledLimn("firstProperty", Value("77")), LabeledLimn("secondProperty", FilteredOut)];
    assert FilterLabeled(ps, cc) == fs;
    assert AnyLabeledSurvives(fs) by { assert !IsOmitted(fs[0].value); }
  }

  /**
   * Filtering a container by the class style keeps the classes (the inner one
   * with its properties filtered away, as the match depth is 0) and filters
   * away the other members.
   */
  lemma FilterClassStyle()
    ensures var container := Class("TestContainer", "0x0", [
                              LabeledLimn("myClass", SimpleClass),
                              LabeledLimn("myCollection", Collection([Value("1"), Value("2")])),
                              LabeledLimn("myValue", Value("\"s\""))
                            ]);
            FilteredByDisplayStyle(container, ClassStyle, 0) ==
            Class("TestContainer", "0x0", [
              LabeledLimn("myClass", Class("LimnTests.SwiftClass.Simple", "0x1", [
                LabeledLimn("firstProperty", FilteredOut),
                LabeledLimn("secondProperty", FilteredOut)
              ])),
              LabeledLimn("myCollection", FilteredOut),
              LabeledLimn("myValue", FilteredOut)
            ])
  {
    var c := NewContext(0, 0, y => MatchesDisplayStyle(y, ClassStyle));
    var m := Maximizing(c);
    var md := Decrementing(m);
    assert m.currentMatchDepth == 0 && md.currentMatchDepth == 0;
    var inner := Class("LimnTests.SwiftClass.Simple", "0x1", [
                   LabeledLimn("firstProperty", FilteredOut),
                   LabeledLimn("secondProperty", FilteredOut)
                 ]);
    assert FilterLabeled(SimpleClass.properties, m) == inner.properties;
    assert FilterRec(SimpleClass, m) == inner;
    var coll := Collection([Value("1"), Value("2")]);
    assert FilterAll(coll.elements, md) == [FilteredOut, FilteredOut];
    assert FilterRec(coll, m) == FilteredOut;
    assert FilterRec(Value("\"s\""), m) == FilteredOut;
  }
}
