/**
 * Decoding the Objective-C type encoding of a struct, such as
 * `{CGPoint="x"d"y"d}`, into the struct's name and its named components.
 *
 * The decoder is a single left-to-right scan: the name runs from the second
 * character to the first `=`, and the body (everything after that `=` up to
 * the final character) is read as a series of `"name"type` components. A
 * type is a bracketed type read up to its balancing bracket, an object type
 * `@"Class"` read through the quote that closes the class name, or anything
 * else read up to the next quote. Where the original force-unwraps (runs
 * out of text inside a bracketed type, or finds no closing quote after
 * `@`), the model answers `None`.
 */
module TypeEncodings {
  import opened Wrappers
  import Formatting

  datatype TypeEncodingComponent = TypeEncodingComponent(name: string, typeEncoding: string)

  // ---------------------------------------------------------------------------
  // Substring operations
  // ---------------------------------------------------------------------------

  /** Everything after the first `k` characters; nothing when there are fewer. */
  function DropFirst(s: string, k: nat): (r: string)
    ensures k <= |s| ==> s[..k] + r == s
    ensures k >= |s| ==> r == []
  {
    if k <= |s| then s[k..] else []
  }

  /** Everything but the last character; nothing when there is none. */
  function DropLast(s: string): (r: string)
    ensures s != [] ==> r + [s[|s| - 1]] == s
    ensures s == [] ==> r == []
  {
    if s == [] then [] else s[..|s| - 1]
  }

  /** The longest prefix of `s` without `c`. */
  function PrefixUntil(s: string, c: char): (r: string)
    ensures r <= s && c !in r
    ensures |r| < |s| ==> s[|r|] == c
  {
    s[..Formatting.FirstIndexOf(s, c)]
  }

  // ---------------------------------------------------------------------------
  // Name and body
  // ---------------------------------------------------------------------------

  /** The struct's name: the text after the first character up to the first `=`. */
  function TypeName(encoding: string): (r: string)
    ensures '=' !in r
    ensures encoding != [] ==> [encoding[0]] + r <= encoding
    ensures encoding != [] && |r| + 1 < |encoding| ==> encoding[|r| + 1] == '='
    ensures encoding == [] ==> r == []
  {
    PrefixUntil(DropFirst(encoding, 1), '=')
  }

  /**
   * The component list: the encoding without its first `|name| + 2`
   * characters (the opening character, the name and `=`) and without its
   * last character.
   */
  function Body(encoding: string): (r: string)
    ensures |TypeName(encoding)| + 3 <= |encoding| ==>
      encoding == encoding[..|TypeName(encoding)| + 2] + r + [encoding[|encoding| - 1]]
    ensures |TypeName(encoding)| + 3 > |encoding| ==> r == []
  {
    DropLast(DropFirst(encoding, |TypeName(encoding)| + 2))
  }

  // ---------------------------------------------------------------------------
  // Bracketed types
  // ---------------------------------------------------------------------------

  /** How a character moves the nesting level between `open` and `close`. */
  function Delta(c: char, open: char, close: char): int {
    if c == open then 1 else if c == close then -1 else 0
  }

  /** The net nesting level a text adds. */
  function Depth(t: string, open: char, close: char): int {
    if t == [] then 0 else Delta(t[0], open, close) + Depth(t[1..], open, close)
  }

  lemma {:induction false} DepthAppend(a: string, b: string, open: char, close: char)
    ensures Depth(a + b, open, close) == Depth(a, open, close) + Depth(b, open, close)
  {
    if a != [] {
      assert (a + b)[1..] == a[1..] + b;
      DepthAppend(a[1..], b, open, close);
    } else {
      assert a + b == b;
    }
  }

  /** Every non-empty prefix of `s` is its first character followed by a prefix of the rest. */
  lemma PrefixDepths(s: string, open: char, close: char)
    requires s != []
    ensures forall k :: 1 <= k <= |s| ==>
      Depth(s[..k], open, close) == Delta(s[0], open, close) + Depth(s[1..][..k - 1], open, close)
  {
    forall k | 1 <= k <= |s|
      ensures Depth(s[..k], open, close) == Delta(s[0], open, close) + Depth(s[1..][..k - 1], open, close)
    {
      assert s[..k][1..] == s[1..][..k - 1];
    }
  }

  /**
   * How many characters the bracket scan consumes, starting at nesting
   * `level`: it always takes the first character, and stops once the level
   * is no longer positive. `None` when the text ends first.
   */
  function NestableLength(s: string, open: char, close: char, level: int): (r: Option<nat>)
    ensures r.Some? ==> (1 <= r.value <= |s|
      && level + Depth(s[..r.value], open, close) <= 0
      && forall k :: 1 <= k < r.value ==> level + Depth(s[..k], open, close) > 0)
    ensures r.None? ==> forall k :: 1 <= k <= |s| ==> level + Depth(s[..k], open, close) > 0
    decreases |s|
  {
    if s == [] then None
    else
      PrefixDepths(s, open, close);
      var l := level + Delta(s[0], open, close);
      assert Depth(s[..1], open, close) == Delta(s[0], open, close) by {
        assert s[1..][..0] == [];
      }
      if l <= 0 then Some(1)
      else
        match NestableLength(s[1..], open, close, l)
        case None => None
        case Some(n) => Some(n + 1)
  }

  /** The scan returns the same length when more text follows what it consumed. */
  lemma {:induction false} NestableLengthPrefix(s: string, more: string, open: char, close: char, level: int)
    requires NestableLength(s, open, close, level) == Some(|s|)
    ensures NestableLength(s + more, open, close, level) == Some(|s|)
  {
    var l := level + Delta(s[0], open, close);
    if l > 0 {
      assert (s + more)[1..] == s[1..] + more;
      NestableLengthPrefix(s[1..], more, open, close, l);
    }
  }

  /** The bracket that closes `open`. */
  function Closer(open: char): char {
    if open == '{' then '}' else if open == '[' then ']' else ')'
  }

  predicate IsOpener(c: char) {
    c == '{' || c == '[' || c == '('
  }

  /**
   * Reads a bracketed type at the start of `s`: it is the shortest
   * non-empty prefix whose brackets balance.
   */
  function ReadNestable(s: string): (r: Option<(string, string)>)
    requires s != [] && IsOpener(s[0])
    ensures r.Some? ==> (r.value.0 + r.value.1 == s
      && Depth(r.value.0, s[0], Closer(s[0])) == 0
      && forall k :: 1 <= k < |r.value.0| ==> Depth(s[..k], s[0], Closer(s[0])) > 0)
    ensures r.None? <==> forall k :: 1 <= k <= |s| ==> Depth(s[..k], s[0], Closer(s[0])) > 0
  {
    var open, close := s[0], Closer(s[0]);
    match NestableLength(s, open, close, 0)
    case None => None
    case Some(n) =>
      BalancedAtStop(s, n);
      Some((s[..n], s[n..]))
  }

  /** Starting on an opening bracket, the scan stops exactly where the level returns to zero. */
  lemma BalancedAtStop(s: string, n: nat)
    requires s != [] && IsOpener(s[0])
    requires NestableLength(s, s[0], Closer(s[0]), 0) == Some(n)
    ensures Depth(s[..n], s[0], Closer(s[0])) == 0
  {
    var open, close := s[0], Closer(s[0]);
    PrefixDepths(s, open, close);
    assert s[1..][..0] == [];
    assert Depth(s[..1], open, close) == 1;
    assert n >= 2;
    assert s[..n] == s[..n - 1] + [s[n - 1]];
    DepthAppend(s[..n - 1], [s[n - 1]], open, close);
  }

  // ---------------------------------------------------------------------------
  // Component types
  // ---------------------------------------------------------------------------

  /**
   * Reads one component's type from the start of `s`, returning the type and
   * what follows it. `None` when the original would stop on a failed unwrap.
   */
  function ReadType(s: string): (r: Option<(string, string)>)
    ensures r.Some? ==> r.value.0 + r.value.1 == s
    ensures r.None? ==> s != [] && (IsOpener(s[0]) || s[0] == '@')
  {
    if s == [] then Some(([], []))
    else if IsOpener(s[0]) then ReadNestable(s)
    else if s[0] == '@' then ReadObject(s)
    else
      var e := Formatting.FirstIndexOf(s, '"');
      Some((s[..e], s[e..]))
  }

  /**
   * Reads an object type `@"Class"`: the search for the closing quote starts
   * after the first two characters, and the type runs through that quote.
   */
  function ReadObject(s: string): (r: Option<(string, string)>)
    requires s != [] && s[0] == '@'
    ensures r.Some? ==> (r.value.0 + r.value.1 == s
      && |r.value.0| >= 3 && r.value.0[|r.value.0| - 1] == '"'
      && '"' !in r.value.0[2..|r.value.0| - 1])
    ensures r.None? <==> |s| < 2 || '"' !in s[2..]
  {
    var after := DropFirst(s, 2);
    var q := Formatting.FirstIndexOf(after, '"');
    if q == |after| then
      assert |s| >= 2 ==> after == s[2..];
      None
    else
      assert s[2..][..q] == s[2..2 + q];
      Some((s[..q + 3], s[q + 3..]))
  }

  // ---------------------------------------------------------------------------
  // Components
  // ---------------------------------------------------------------------------

  /**
   * One pass of the loop over the body: the name after the first character
   * up to the next quote, then the type after that closing quote. What
   * remains is always strictly shorter than the body.
   */
  function Step(body: string): (r: Option<(TypeEncodingComponent, string)>)
    requires body != []
    ensures r.Some? ==> '"' !in r.value.0.name && |r.value.1| < |body|
    ensures r.Some? && |r.value.0.name| + 2 <= |body| ==>
      body == [body[0]] + r.value.0.name + ['"'] + r.value.0.typeEncoding + r.value.1
    ensures r.Some? && |r.value.0.name| + 2 > |body| ==>
      body == [body[0]] + r.value.0.name && r.value.0.typeEncoding == [] && r.value.1 == []
  {
    var name := PrefixUntil(DropFirst(body, 1), '"');
    var rest := DropFirst(body, |name| + 2);
    NameLayout(body);
    match ReadType(rest)
    case None => None
    case Some((t, more)) =>
      Some((TypeEncodingComponent(name, t), more))
  }

  /** The body opens with one character, the name, and (when present) the closing quote. */
  lemma NameLayout(body: string)
    requires body != []
    ensures var name := PrefixUntil(DropFirst(body, 1), '"');
      && (|name| + 2 <= |body| ==> body == [body[0]] + name + ['"'] + DropFirst(body, |name| + 2))
      && (|name| + 2 > |body| ==> body == [body[0]] + name && DropFirst(body, |name| + 2) == [])
  {
    var name := PrefixUntil(DropFirst(body, 1), '"');
    if |name| + 2 <= |body| {
      assert body[1..][..|name|] == name;
      assert body == [body[0]] + body[1..][..|name|] + [body[|name| + 1]] + body[|name| + 2..];
    } else {
      assert name == body[1..];
    }
  }

  /** Reads every component of a body, in order. */
  function DecodeComponents(body: string): (r: Option<seq<TypeEncodingComponent>>)
    ensures r.Some? ==> forall i :: 0 <= i < |r.value| ==> '"' !in r.value[i].name
    ensures body == [] ==> r == Some([])
    decreases |body|
  {
    if body == [] then Some([])
    else
      match Step(body)
      case None => None
      case Some((c, more)) =>
        match DecodeComponents(more)
        case None => None
        case Some(cs) => Some([c] + cs)
  }

  /** The struct's name and components; `None` where the original would trap. */
  function DecodeStructTypeEncoding(encoding: string): (r: Option<(string, seq<TypeEncodingComponent>)>)
    ensures r.Some? ==> '=' !in r.value.0
    ensures r.Some? ==> forall i :: 0 <= i < |r.value.1| ==> '"' !in r.value.1[i].name
    ensures |TypeName(encoding)| + 3 >= |encoding| ==> r == Some((TypeName(encoding), []))
  {
    match DecodeComponents(Body(encoding))
    case None => None
    case Some(cs) => Some((TypeName(encoding), cs))
  }

  // ---------------------------------------------------------------------------
  // Encoding, the partner of decoding
  // ---------------------------------------------------------------------------

  /** Writes components back as `"name"type` pairs. */
  function EncodeComponents(cs: seq<TypeEncodingComponent>): (r: string)
    ensures cs == [] ==> r == []
  {
    if cs == [] then []
    else ['"'] + cs[0].name + ['"'] + cs[0].typeEncoding + EncodeComponents(cs[1..])
  }

  /** Writes a struct encoding `{name=components}`. */
  function EncodeStruct(name: string, cs: seq<TypeEncodingComponent>): (r: string)
    ensures |r| == |name| + |EncodeComponents(cs)| + 3
  {
    ['{'] + name + ['='] + EncodeComponents(cs) + ['}']
  }

  /**
   * The type encodings the decoder reads back exactly: a bracketed type
   * whose brackets first balance at its end, an object type with a class
   * name, or a quote-free type that does not begin like either of those.
   */
  predicate WellFormedType(t: string) {
    if t == [] then true
    else if IsOpener(t[0]) then NestableLength(t, t[0], Closer(t[0]), 0) == Some(|t|)
    else if t[0] == '@' then |t| >= 3 && t[1] == '"' && t[|t| - 1] == '"' && '"' !in t[2..|t| - 1]
    else '"' !in t
  }

  predicate WellFormedComponent(c: TypeEncodingComponent) {
    '"' !in c.name && WellFormedType(c.typeEncoding)
  }

  predicate WellFormed(cs: seq<TypeEncodingComponent>) {
    forall i :: 0 <= i < |cs| ==> WellFormedComponent(cs[i])
  }

  /** A well-formed type is read back exactly when a quote or nothing follows it. */
  lemma ReadTypeWellFormed(t: string, more: string)
    requires WellFormedType(t)
    requires more == [] || more[0] == '"'
    ensures ReadType(t + more) == Some((t, more))
  {
    var s := t + more;
    if t == [] {
      assert s == more;
      if more != [] {
        Formatting.FirstIndexAt(s, '"', 0);
      }
    } else if IsOpener(t[0]) {
      NestableLengthPrefix(t, more, t[0], Closer(t[0]), 0);
      assert s[..|t|] == t && s[|t|..] == more;
    } else if t[0] == '@' {
      var after := DropFirst(s, 2);
      assert after == t[2..] + more;
      Formatting.FirstIndexAt(after, '"', |t| - 3);
      assert s[..|t|] == t && s[|t|..] == more;
    } else {
      Formatting.FirstIndexAt(s, '"', |t|);
      assert s[..|t|] == t && s[|t|..] == more;
    }
  }

  /** A quoted name is read back, and the type is read from what follows its closing quote. */
  lemma ReadName(name: string, after: string)
    requires '"' !in name
    ensures PrefixUntil(DropFirst(['"'] + name + ['"'] + after, 1), '"') == name
    ensures DropFirst(['"'] + name + ['"'] + after, |name| + 2) == after
  {
    var body := ['"'] + name + ['"'] + after;
    var d := DropFirst(body, 1);
    assert d == name + (['"'] + after);
    Formatting.FirstIndexAt(d, '"', |name|);
  }

  /** One step on a quoted name reads the name, then a type from what follows. */
  lemma StepReads(name: string, after: string)
    requires '"' !in name
    ensures Step(['"'] + name + ['"'] + after) ==
      match ReadType(after)
      case None => None
      case Some((t, more)) => Some((TypeEncodingComponent(name, t), more))
  {
    ReadName(name, after);
  }

  lemma EncodeCons(c: TypeEncodingComponent, cs: seq<TypeEncodingComponent>)
    ensures EncodeComponents([c] + cs) == ['"'] + c.name + ['"'] + (c.typeEncoding + EncodeComponents(cs))
  {
    assert ([c] + cs)[1..] == cs;
  }

  /** Written components start with a quote, unless there are none. */
  lemma EncodedStartsWithQuote(cs: seq<TypeEncodingComponent>)
    ensures EncodeComponents(cs) == [] || EncodeComponents(cs)[0] == '"'
  {
  }

  /** One step reads back the first of several written components. */
  lemma StepEncoded(c: TypeEncodingComponent, cs: seq<TypeEncodingComponent>)
    requires WellFormedComponent(c)
    ensures Step(EncodeComponents([c] + cs)) == Some((c, EncodeComponents(cs)))
  {
    EncodeCons(c, cs);
    EncodedStartsWithQuote(cs);
    ReadTypeWellFormed(c.typeEncoding, EncodeComponents(cs));
    StepReads(c.name, c.typeEncoding + EncodeComponents(cs));
  }

  /** Decoding reads back every list of well-formed components. */
  lemma {:induction false} DecodeEncode(cs: seq<TypeEncodingComponent>)
    requires WellFormed(cs)
    ensures DecodeComponents(EncodeComponents(cs)) == Some(cs)
  {
    if cs != [] {
      assert cs == [cs[0]] + cs[1..];
      assert WellFormedComponent(cs[0]);
      StepEncoded(cs[0], cs[1..]);
      DecodeEncode(cs[1..]);
    }
  }

  /** A struct encoding with a well-formed name and components decodes to them. */
  lemma DecodeStructRoundTrip(name: string, cs: seq<TypeEncodingComponent>)
    requires '=' !in name && WellFormed(cs)
    ensures DecodeStructTypeEncoding(EncodeStruct(name, cs)) == Some((name, cs))
  {
    var e := EncodeStruct(name, cs);
    var body := EncodeComponents(cs);
    assert DropFirst(e, 1) == name + (['='] + body + ['}']);
    Formatting.FirstIndexAt(DropFirst(e, 1), '=', |name|);
    assert TypeName(e) == name;
    assert DropFirst(e, |name| + 2) == body + ['}'];
    assert Body(e) == body;
    DecodeEncode(cs);
  }

  /**
   * Decoding stops with `None` on an object type whose class name is never
   * closed, wherever the component sits.
   */
  lemma UnclosedObjectFails(name: string, cls: string)
    requires '"' !in name && '"' !in cls
    ensures DecodeComponents(['"'] + name + ['"', '@', '"'] + cls) == None
  {
    var body, after := ['"'] + name + ['"', '@', '"'] + cls, ['@', '"'] + cls;
    assert body == ['"'] + name + ['"'] + after;
    assert after[2..] == cls;
    assert ReadObject(after) == None;
    assert ReadType(after) == None;
    StepReads(name, after);
    assert Step(body) == None;
  }

  /** The encoding of `CGPoint`, `{CGPoint="x"d"y"d}`, decodes to its name and two `double` fields. */
  lemma PointDecodes()
    ensures var cs := [TypeEncodingComponent("x", "d"), TypeEncodingComponent("y", "d")];
      DecodeStructTypeEncoding(EncodeStruct("CGPoint", cs)) == Some(("CGPoint", cs))
  {
    var cs := [TypeEncodingComponent("x", "d"), TypeEncodingComponent("y", "d")];
    assert WellFormedComponent(cs[0]) && WellFormedComponent(cs[1]);
    DecodeStructRoundTrip("CGPoint", cs);
  }
}
