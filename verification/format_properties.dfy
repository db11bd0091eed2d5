/**
 * Worked examples of the name formatting: which names count as fully
 * qualified, and how one nested generic name formats under each choice of
 * kept components.
 */
module FormatProperties {
  import opened Wrappers
  import opened Formatting

  /** The head of a name split at its dots, when the head is written as joined parts. */
  lemma HeadParts(name: string, parts: seq<string>, i: nat)
    requires parts != [] && forall k :: 0 <= k < |parts| ==> '.' !in parts[k]
    requires i <= |name| && name[..i] == Join(parts, ".") && '<' !in name[..i]
    requires i < |name| ==> name[i] == '<'
    ensures SplitOn(name[..FirstIndexOf(name, '<')], '.') == parts
  {
    FirstIndexAt(name, '<', i);
    SplitJoin(parts, '.');
  }

  /** A name whose head is two or more words joined by dots is fully qualified. */
  lemma Qualified(name: string, parts: seq<string>, i: nat)
    requires |parts| >= 2 && forall k :: 0 <= k < |parts| ==> IsWord(parts[k])
    requires i <= |name| && name[..i] == Join(parts, ".") && '<' !in name[..i]
    requires i < |name| ==> name[i] == '<'
    ensures IsFullyQualifiedTypeName(name)
  {
    forall k | 0 <= k < |parts| ensures '.' !in parts[k] {
      assert !IsWordChar('.');
    }
    HeadParts(name, parts, i);
  }

  /** A name whose head has a part that is not a word is not fully qualified. */
  lemma NotQualified(name: string, parts: seq<string>, i: nat, k: nat)
    requires parts != [] && forall k :: 0 <= k < |parts| ==> '.' !in parts[k]
    requires i <= |name| && name[..i] == Join(parts, ".") && '<' !in name[..i]
    requires i < |name| ==> name[i] == '<'
    requires |parts| < 2 || (k < |parts| && !IsWord(parts[k]))
    ensures !IsFullyQualifiedTypeName(name)
  {
    HeadParts(name, parts, i);
  }

  lemma JoinTwo(a: string, b: string, sep: string)
    ensures Join([a, b], sep) == a + sep + b
  {
    assert [a, b][..1] == [a];
  }

  lemma JoinThree(a: string, b: string, c: string, sep: string)
    ensures Join([a, b, c], sep) == a + sep + b + sep + c
  {
    assert [a, b, c][..2] == [a, b];
    JoinTwo(a, b, sep);
  }

  lemma JoinFour(a: string, b: string, c: string, d: string, sep: string)
    ensures Join([a, b, c, d], sep) == a + sep + b + sep + c + sep + d
  {
    assert [a, b, c, d][..3] == [a, b, c];
    JoinThree(a, b, c, sep);
  }

  lemma SwiftStringQualified()
    ensures IsFullyQualifiedTypeName("Swift.String")
  {
    var name := "Swift.String";
    var parts := ["Swift", "String"];
    JoinTwo("Swift", "String", ".");
    assert name[..12] == name;
    assert IsWord(parts[0]) && IsWord(parts[1]);
    Qualified(name, parts, 12);
  }

  lemma NestedQualified()
    ensures IsFullyQualifiedTypeName("UIKit.UIControl.State")
  {
    var name := "UIKit.UIControl.State";
    var parts := ["UIKit", "UIControl", "State"];
    JoinThree("UIKit", "UIControl", "State", ".");
    NestedWords();
    assert name[..21] == name;
    Qualified(name, parts, 21);
  }

  lemma NestedWords()
    ensures IsWord("UIKit") && IsWord("UIControl") && IsWord("State")
    ensures '<' !in "UIKit.UIControl.State"
  {
  }

  lemma GenericQualified()
    ensures IsFullyQualifiedTypeName("Combine.AnyPublisher<Swift.String, Swift.Never>")
  {
    var name := "Combine.AnyPublisher<Swift.String, Swift.Never>";
    var parts := ["Combine", "AnyPublisher"];
    JoinTwo("Combine", "AnyPublisher", ".");
    GenericHead(name);
    PublisherWords();
    Qualified(name, parts, 20);
  }

  /** The generic publisher name's head ends at its first bracket, at offset 20. */
  lemma GenericHead(name: string)
    requires name == "Combine.AnyPublisher<Swift.String, Swift.Never>"
    ensures name[..20] == "Combine.AnyPublisher" && '<' !in name[..20] && name[20] == '<'
  {
    assert name[..20] == "Combine.AnyPublisher";
  }

  lemma PublisherWords()
    ensures IsWord("Combine") && IsWord("AnyPublisher")
  {
  }

  lemma SingleWordNotQualified()
    ensures !IsFullyQualifiedTypeName("String")
  {
    assert "String"[..6] == "String";
    NotQualified("String", ["String"], 6, 0);
  }

  lemma LeadingBracketNotQualified()
    ensures !IsFullyQualifiedTypeName("<AnyPublisher<Module.String, Never>>")
  {
    var name := "<AnyPublisher<Module.String, Never>>";
    assert name[..0] == "";
    NotQualified(name, [""], 0, 0);
  }

  lemma HyphenNotQualified()
    ensures !IsFullyQualifiedTypeName("UI-View")
  {
    assert "UI-View"[..7] == "UI-View";
    NotQualified("UI-View", ["UI-View"], 7, 0);
  }

  lemma LeadingSpaceNotQualified()
    ensures !IsFullyQualifiedTypeName("  String.Test")
  {
    var name := "  String.Test";
    JoinTwo("  String", "Test", ".");
    assert name[..13] == name;
    assert !IsWordChar("  String"[0]);
    NotQualified(name, ["  String", "Test"], 13, 0);
  }

  lemma TrailingDotNotQualified()
    ensures !IsFullyQualifiedTypeName("Swift.String.")
  {
    var name := "Swift.String.";
    JoinThree("Swift", "String", "", ".");
    assert name[..13] == name;
    NotQualified(name, ["Swift", "String", ""], 13, 2);
  }

  // ---------------------------------------------------------------------------
  // A nested generic name under each choice of components
  // ---------------------------------------------------------------------------

  /** Formatting a name built from dot-separated parts and an optional bracketed argument list. */
  lemma FormatParts(parts: seq<string>, rest: string, c: Components)
    requires parts != []
    requires forall k :: 0 <= k < |parts| ==> '.' !in parts[k] && '<' !in parts[k]
    requires forall k :: 0 <= k < |parts| - 1 ==> parts[k] != []
    requires rest == [] || (|rest| >= 2 && rest[0] == '<' && rest[|rest| - 1] == '>')
    requires c != AllComponents
    ensures var n := |parts|;
      var name := Join(parts, ".") + rest;
      var generics := if rest == [] then "" else rest[1..|rest| - 1];
      FormatTypeName(name, c)
      == (if Includes(c, ModuleName) && n > 1 then parts[0] + "." else "")
         + (if Includes(c, NestingTypeNames) && n > 2 then Join(parts[1..n - 1], ".") + "." else "")
         + parts[n - 1]
         + (if Includes(c, GenericTypeParameterNames) && generics != []
            then "<" + Join(FormatArguments(generics, c, |name|), ", ") + ">" else "")
  {
    DecomposeParts(parts, rest);
  }

  /** Formatting a list of two arguments formats each, trimmed. */
  lemma TwoArguments(generics: string, c: Components, bound: nat, x: string, y: string)
    requires |generics| < bound && SplitArguments(generics) == [x, y]
    ensures FormatArguments(generics, c, bound) == [FormatTypeName(Trim(x), c), FormatTypeName(Trim(y), c)]
  {
  }

  lemma TrimUnchanged(t: string)
    requires t != [] && !IsWhitespace(t[0]) && !IsWhitespace(t[|t| - 1])
    ensures Trim(t) == t
  {
  }

  lemma TrimLeadingSpace(t: string)
    requires t != [] && !IsWhitespace(t[0]) && !IsWhitespace(t[|t| - 1])
    ensures Trim(" " + t) == t
  {
    assert (" " + t)[1..] == t;
  }

  lemma DropEmpty(x: string, y: string)
    ensures x + "" + y + "" == x + y
  {
  }

  /** A two-part name without arguments keeps its module only when asked to. */
  lemma FormatDottedPair(m: string, b: string, c: Components)
    requires m != [] && '.' !in m && '<' !in m && '.' !in b && '<' !in b
    requires c != AllComponents
    ensures FormatTypeName(m + "." + b, c) == (if Includes(c, ModuleName) then m + "." else "") + b
  {
    var parts := [m, b];
    JoinTwo(m, b, ".");
    assert m + "." + b + "" == m + "." + b;
    assert forall k :: 0 <= k < |parts| ==> '.' !in parts[k] && '<' !in parts[k];
    var name := Join(parts, ".") + "";
    assert name == m + "." + b;
    var prefix := if Includes(c, ModuleName) then m + "." else "";
    assert FormatTypeName(name, c) == prefix + "" + b + "" by {
      FormatParts(parts, "", c);
    }
    DropEmpty(prefix, b);
  }

  /** Appends `t` to the last argument collected so far. */
  function Extend(acc: seq<string>, t: string): (r: seq<string>)
    requires acc != []
    ensures |r| == |acc| && r[..|r| - 1] == acc[..|acc| - 1] && r[|r| - 1] == acc[|acc| - 1] + t
  {
    acc[..|acc| - 1] + [acc[|acc| - 1] + t]
  }

  lemma ScanPlain(a: string, rest: string, acc: seq<string>, level: int)
    requires acc != [] && Plain(a)
    ensures SplitFrom(a + rest, acc, level) == SplitFrom(rest, Extend(acc, a), level)
  {
    SplitFromAppend(a, rest, acc, level);
    SplitFromPlain(a, acc, level);
    PlainLevel(a, level);
  }

  lemma ScanChar(c: char, rest: string, acc: seq<string>, level: int)
    requires acc != []
    ensures var level' := if c == '<' then level + 1 else if c == '>' then level - 1 else level;
      SplitFrom([c] + rest, acc, level)
      == SplitFrom(rest, if level' == 0 && c == ',' then acc + [""] else Extend(acc, [c]), level')
  {
    assert ([c] + rest)[0] == c && ([c] + rest)[1..] == rest;
  }

  /** Two plain arguments separated by a comma. */
  lemma SplitPlainPair(a: string, b: string)
    requires Plain(a) && Plain(b)
    ensures SplitArguments(a + "," + b) == [a, b]
  {
    assert "" + a == a && "" + b == b && b + [] == b;
    assert a + "," + b == a + ([','] + (b + []));
    calc {
      SplitArguments(a + "," + b);
      SplitFrom(a + ([','] + (b + [])), [""], 0);
      { ScanPlain(a, [','] + (b + []), [""], 0); assert Extend([""], a) == [a]; }
      SplitFrom([','] + (b + []), [a], 0);
      { ScanChar(',', b + [], [a], 0); assert [a] + [""] == [a, ""]; }
      SplitFrom(b + [], [a, ""], 0);
      { ScanPlain(b, [], [a, ""], 0); assert Extend([a, ""], b) == [a, b]; }
      SplitFrom([], [a, b], 0);
      [a, b];
    }
  }

  /** A generic argument that itself has two plain arguments, then a plain argument. */
  lemma SplitNestedPair(a: string, b: string, c: string, d: string)
    requires Plain(a) && Plain(b) && Plain(c) && Plain(d)
    ensures SplitArguments(a + "<" + b + "," + c + ">" + "," + d) == [a + "<" + b + "," + c + ">", d]
  {
    var first := a + "<" + b + "," + c + ">";
    var s6 := d + [];
    var s5 := [','] + s6;
    var s4 := ['>'] + s5;
    var s3 := c + s4;
    var s2 := [','] + s3;
    var s1 := b + s2;
    var s0 := ['<'] + s1;
    assert a + "<" + b + "," + c + ">" + "," + d == a + s0;
    assert "" + a == a && "" + d == d && d + [] == d;
    calc {
      SplitArguments(a + s0);
      { ScanPlain(a, s0, [""], 0); assert Extend([""], a) == [a]; }
      SplitFrom(s0, [a], 0);
      { ScanChar('<', s1, [a], 0); assert Extend([a], "<") == [a + "<"]; }
      SplitFrom(s1, [a + "<"], 1);
      { ScanPlain(b, s2, [a + "<"], 1); assert Extend([a + "<"], b) == [a + "<" + b]; }
      SplitFrom(s2, [a + "<" + b], 1);
      { ScanChar(',', s3, [a + "<" + b], 1); assert Extend([a + "<" + b], ",") == [a + "<" + b + ","]; }
      SplitFrom(s3, [a + "<" + b + ","], 1);
      { ScanPlain(c, s4, [a + "<" + b + ","], 1); assert Extend([a + "<" + b + ","], c) == [a + "<" + b + "," + c]; }
      SplitFrom(s4, [a + "<" + b + "," + c], 1);
      { ScanChar('>', s5, [a + "<" + b + "," + c], 1); assert Extend([a + "<" + b + "," + c], ">") == [first]; }
      SplitFrom(s5, [first], 0);
      { ScanChar(',', s6, [first], 0); assert [first] + [""] == [first, ""]; }
      SplitFrom(s6, [first, ""], 0);
      { ScanPlain(d, [], [first, ""], 0); assert Extend([first, ""], d) == [first, d]; }
      SplitFrom([], [first, d], 0);
      [first, d];
    }
  }

  const Context: string := "(Unknown context at 0x213)"
  const TwoAnother: string := "Two" + "." + "Another"
  const InnerArguments: string := "One" + "," + (" " + TwoAnother)
  const FrameTest: string := "Frame" + "." + "Yo" + "." + "Test"
  const FirstArgument: string := FrameTest + "<" + InnerArguments + ">"
  const SubMain: string := "SwiftUI" + "." + "Sub" + "." + "Main"
  const OuterArguments: string := FirstArgument + "," + (" " + SubMain)
  const OuterName: string := "Module" + "." + Context + "." + "Wrapped" + "." + "String" + "<" + OuterArguments + ">"

  lemma InnerArgumentsSplit()
    ensures SplitArguments(InnerArguments) == ["One", " " + TwoAnother]
  {
    assert Plain("One") && Plain(" " + TwoAnother);
    SplitPlainPair("One", " " + TwoAnother);
  }

  lemma OuterArgumentsSplit()
    ensures SplitArguments(OuterArguments) == [FirstArgument, " " + SubMain]
  {
    assert Plain(FrameTest) && Plain("One") && Plain(" " + TwoAnother) && Plain(" " + SubMain);
    SplitNestedPair(FrameTest, "One", " " + TwoAnother, " " + SubMain);
    assert FirstArgument == FrameTest + "<" + "One" + "," + (" " + TwoAnother) + ">";
  }

  /** `s` when the component is kept, nothing otherwise. */
  function Keep(c: Components, bit: bv64, s: string): string {
    if Includes(c, bit) then s else ""
  }

  lemma FormatDottedTriple(m: string, n: string, b: string, c: Components)
    requires m != [] && n != [] && '.' !in m && '<' !in m && '.' !in n && '<' !in n && '.' !in b && '<' !in b
    requires c != AllComponents
    ensures FormatTypeName(m + "." + n + "." + b, c) == Keep(c, ModuleName, m + ".") + Keep(c, NestingTypeNames, n + ".") + b
  {
    var parts := [m, n, b];
    JoinThree(m, n, b, ".");
    assert parts[1..2] == [n];
    assert forall k :: 0 <= k < |parts| ==> '.' !in parts[k] && '<' !in parts[k];
    var name := Join(parts, ".") + "";
    assert name == m + "." + n + "." + b;
    assert FormatTypeName(name, c) == Keep(c, ModuleName, m + ".") + Keep(c, NestingTypeNames, n + ".") + b + "" by {
      FormatParts(parts, "", c);
    }
  }

  lemma BracketedMiddle(a: string)
    ensures var rest := "<" + a + ">";
      |rest| >= 2 && rest[0] == '<' && rest[|rest| - 1] == '>' && rest[1..|rest| - 1] == a
  {
  }

  /** `Two.Another` keeps its module `Two` only when modules are kept. */
  lemma TwoAnotherFormats(c: Components)
    requires c != AllComponents
    ensures FormatTypeName(TwoAnother, c) == Keep(c, ModuleName, "Two.") + "Another"
  {
    FormatDottedPair("Two", "Another", c);
  }

  /** The arguments of the first generic argument, `One, Two.Another`. */
  lemma InnerArgumentsFormat(c: Components, bound: nat)
    requires c != AllComponents && |InnerArguments| < bound
    ensures Join(FormatArguments(InnerArguments, c, bound), ", ") == "One" + ", " + (Keep(c, ModuleName, "Two.") + "Another")
  {
    InnerArgumentsSplit();
    TwoArguments(InnerArguments, c, bound, "One", " " + TwoAnother);
    TrimUnchanged("One");
    TrimLeadingSpace(TwoAnother);
    SimpleNameUnchanged("One", c);
    TwoAnotherFormats(c);
    JoinTwo("One", Keep(c, ModuleName, "Two.") + "Another", ", ");
  }

  /** A three-part name with an argument list. */
  lemma FormatTripleWithArguments(m: string, n: string, b: string, args: string, c: Components)
    requires m != [] && n != [] && '.' !in m && '<' !in m && '.' !in n && '<' !in n && '.' !in b && '<' !in b
    requires c != AllComponents
    ensures var name := m + "." + n + "." + b + "<" + args + ">";
      FormatTypeName(name, c)
      == Keep(c, ModuleName, m + ".") + Keep(c, NestingTypeNames, n + ".") + b
         + (if Includes(c, GenericTypeParameterNames) && args != []
            then "<" + Join(FormatArguments(args, c, |name|), ", ") + ">" else "")
  {
    var parts := [m, n, b];
    var rest := "<" + args + ">";
    JoinThree(m, n, b, ".");
    assert parts[1..2] == [n];
    assert forall k :: 0 <= k < |parts| ==> '.' !in parts[k] && '<' !in parts[k];
    BracketedMiddle(args);
    assert Join(parts, ".") + rest == m + "." + n + "." + b + "<" + args + ">";
    FormatParts(parts, rest, c);
  }

  /** A four-part name with an argument list. */
  lemma FormatQuadrupleWithArguments(m: string, n1: string, n2: string, b: string, args: string, c: Components)
    requires m != [] && n1 != [] && n2 != []
    requires '.' !in m && '<' !in m && '.' !in n1 && '<' !in n1 && '.' !in n2 && '<' !in n2 && '.' !in b && '<' !in b
    requires c != AllComponents
    ensures var name := m + "." + n1 + "." + n2 + "." + b + "<" + args + ">";
      FormatTypeName(name, c)
      == Keep(c, ModuleName, m + ".") + Keep(c, NestingTypeNames, n1 + "." + n2 + ".") + b
         + (if Includes(c, GenericTypeParameterNames) && args != []
            then "<" + Join(FormatArguments(args, c, |name|), ", ") + ">" else "")
  {
    var parts := [m, n1, n2, b];
    var rest := "<" + args + ">";
    JoinFour(m, n1, n2, b, ".");
    assert parts[1..3] == [n1, n2];
    JoinTwo(n1, n2, ".");
    assert forall k :: 0 <= k < |parts| ==> '.' !in parts[k] && '<' !in parts[k];
    BracketedMiddle(args);
    assert Join(parts, ".") + rest == m + "." + n1 + "." + n2 + "." + b + "<" + args + ">";
    FormatParts(parts, rest, c);
  }

  /** The first generic argument, `Frame.Yo.Test<One, Two.Another>`. */
  lemma FirstArgumentFormats(c: Components)
    requires c != AllComponents
    ensures FormatTypeName(FirstArgument, c)
      == Keep(c, ModuleName, "Frame" + ".") + Keep(c, NestingTypeNames, "Yo" + ".") + "Test"
         + (if Includes(c, GenericTypeParameterNames)
            then "<" + ("One" + ", " + (Keep(c, ModuleName, "Two.") + "Another")) + ">" else "")
  {
    FormatTripleWithArguments("Frame", "Yo", "Test", InnerArguments, c);
    InnerArgumentsFormat(c, |FirstArgument|);
  }

  /** The second generic argument, ` SwiftUI.Sub.Main`, once trimmed. */
  lemma SecondArgumentFormats(c: Components)
    requires c != AllComponents
    ensures FormatTypeName(Trim(" " + SubMain), c)
      == Keep(c, ModuleName, "SwiftUI" + ".") + Keep(c, NestingTypeNames, "Sub" + ".") + "Main"
  {
    TrimLeadingSpace(SubMain);
    FormatDottedTriple("SwiftUI", "Sub", "Main", c);
  }

  /** The formatted argument list of the whole name. */
  lemma OuterArgumentsFormat(c: Components, bound: nat)
    requires c != AllComponents && |OuterArguments| < bound
    ensures Join(FormatArguments(OuterArguments, c, bound), ", ")
      == FormatTypeName(FirstArgument, c) + ", "
         + (Keep(c, ModuleName, "SwiftUI" + ".") + Keep(c, NestingTypeNames, "Sub" + ".") + "Main")
  {
    var first := FormatTypeName(FirstArgument, c);
    var second := Keep(c, ModuleName, "SwiftUI" + ".") + Keep(c, NestingTypeNames, "Sub" + ".") + "Main";
    OuterArgumentsSplit();
    TwoArguments(OuterArguments, c, bound, FirstArgument, " " + SubMain);
    TrimUnchanged(FirstArgument);
    SecondArgumentFormats(c);
    JoinTwo(first, second, ", ");
  }

  lemma OuterNameParts()
    ensures Context != [] && '.' !in Context && '<' !in Context
    ensures OuterArguments != []
    ensures '.' !in "Module" && '<' !in "Module" && '.' !in "Wrapped" && '<' !in "Wrapped"
    ensures '.' !in "String" && '<' !in "String"
    ensures OuterName == "Module" + "." + Context + "." + "Wrapped" + "." + "String" + "<" + OuterArguments + ">"
  {
  }

  /** The whole name under any choice of components but all of them. */
  lemma OuterFormats(c: Components)
    requires c != AllComponents
    ensures FormatTypeName(OuterName, c)
      == Keep(c, ModuleName, "Module" + ".") + Keep(c, NestingTypeNames, Context + "." + "Wrapped" + ".") + "String"
         + (if Includes(c, GenericTypeParameterNames)
            then "<" + (FormatTypeName(FirstArgument, c) + ", "
                 + (Keep(c, ModuleName, "SwiftUI" + ".") + Keep(c, NestingTypeNames, "Sub" + ".") + "Main")) + ">"
            else "")
  {
    OuterNameParts();
    OuterArgumentsFormat(c, |OuterName|);
    FormatQuadrupleWithArguments("Module", Context, "Wrapped", "String", OuterArguments, c);
  }

  /** Keeping everything leaves the name as it is. */
  lemma OuterAll()
    ensures FormatTypeName(OuterName, AllComponents) == OuterName
  {
  }

  lemma FirstGenericsOnly(k1: string, k2: string, k3: string)
    requires k1 == "" && k2 == "" && k3 == ""
    ensures k1 + k2 + "Test" + ("<" + ("One" + ", " + (k3 + "Another")) + ">") == "Test<One, Another>"
  {
  }

  lemma OuterGenericsOnly(k1: string, k2: string, k3: string, k4: string, first: string)
    requires k1 == "" && k2 == "" && k3 == "" && k4 == "" && first == "Test<One, Another>"
    ensures k1 + k2 + "String" + ("<" + (first + ", " + (k3 + k4 + "Main")) + ">") == "String<Test<One, Another>, Main>"
  {
  }

  lemma OuterGenerics(c: Components)
    requires c.rawValue == GenericTypeParameterNames
    ensures FormatTypeName(OuterName, c) == "String<Test<One, Another>, Main>"
  {
    var first := FormatTypeName(FirstArgument, c);
    assert first == "Test<One, Another>" by {
      FirstArgumentFormats(c);
      FirstGenericsOnly(Keep(c, ModuleName, "Frame" + "."), Keep(c, NestingTypeNames, "Yo" + "."), Keep(c, ModuleName, "Two."));
    }
    OuterFormats(c);
    OuterGenericsOnly(Keep(c, ModuleName, "Module" + "."), Keep(c, NestingTypeNames, Context + "." + "Wrapped" + "."),
      Keep(c, ModuleName, "SwiftUI" + "."), Keep(c, NestingTypeNames, "Sub" + "."), first);
  }

  /** The kept pieces of the example, spelled out. */
  lemma PiecesSpelled()
    ensures "Module" + "." == "Module." && "Frame" + "." == "Frame." && "Yo" + "." == "Yo."
    ensures "SwiftUI" + "." == "SwiftUI." && "Sub" + "." == "Sub."
    ensures Context + "." + "Wrapped" + "." == "(Unknown context at 0x213).Wrapped."
  {
  }

  lemma Plainly(k1: string, k2: string, e1: string, e2: string)
    requires k1 == e1 && k2 == e2
    ensures k1 + k2 + "String" + "" == e1 + e2 + "String"
  {
  }

  lemma OuterNothing(c: Components)
    requires c.rawValue == 0
    ensures FormatTypeName(OuterName, c) == "String"
  {
    OuterFormats(c);
    Plainly(Keep(c, ModuleName, "Module" + "."), Keep(c, NestingTypeNames, Context + "." + "Wrapped" + "."), "", "");
  }

  lemma OuterModule(c: Components)
    requires c.rawValue == ModuleName
    ensures FormatTypeName(OuterName, c) == "Module.String"
  {
    OuterFormats(c);
    PiecesSpelled();
    Plainly(Keep(c, ModuleName, "Module" + "."), Keep(c, NestingTypeNames, Context + "." + "Wrapped" + "."), "Module.", "");
    ModuleSpelled();
  }

  lemma ModuleSpelled()
    ensures "Module." + "" + "String" == "Module.String"
  {
  }

  lemma NestingSpelled()
    ensures "" + "(Unknown context at 0x213).Wrapped." + "String" == "(Unknown context at 0x213).Wrapped.String"
  {
  }

  lemma ModuleNestingSpelled()
    ensures "Module." + "(Unknown context at 0x213).Wrapped." + "String" == "Module.(Unknown context at 0x213).Wrapped.String"
  {
  }

  lemma OuterNesting(c: Components)
    requires c.rawValue == NestingTypeNames
    ensures FormatTypeName(OuterName, c) == "(Unknown context at 0x213).Wrapped.String"
  {
    OuterFormats(c);
    PiecesSpelled();
    Plainly(Keep(c, ModuleName, "Module" + "."), Keep(c, NestingTypeNames, Context + "." + "Wrapped" + "."),
      "", "(Unknown context at 0x213).Wrapped.");
    NestingSpelled();
  }

  lemma OuterModuleNesting(c: Components)
    requires c.rawValue == ModuleName | NestingTypeNames
    ensures FormatTypeName(OuterName, c) == "Module.(Unknown context at 0x213).Wrapped.String"
  {
    OuterFormats(c);
    PiecesSpelled();
    Plainly(Keep(c, ModuleName, "Module" + "."), Keep(c, NestingTypeNames, Context + "." + "Wrapped" + "."),
      "Module.", "(Unknown context at 0x213).Wrapped.");
    ModuleNestingSpelled();
  }

  lemma ModuleGenericsSpelled(k1: string, k2: string, k3: string, k4: string, k5: string, k6: string, k7: string, first: string)
    requires k1 == "Frame." && k2 == "" && k3 == "Two."
    requires k4 == "Module." && k5 == "" && k6 == "SwiftUI." && k7 == ""
    requires first == k1 + k2 + "Test" + ("<" + ("One" + ", " + (k3 + "Another")) + ">")
    ensures k4 + k5 + "String" + ("<" + (first + ", " + (k6 + k7 + "Main")) + ">")
      == "Module.String<" + "Frame.Test<One, Two.Another>" + ", SwiftUI.Main>"
  {
    FirstSpelled(k1, k2, k3, first, "Frame.Test<One, Two.Another>");
    ModuleGenericsShape(first);
  }

  lemma FirstSpelled(k1: string, k2: string, k3: string, first: string, e: string)
    requires first == k1 + k2 + "Test" + ("<" + ("One" + ", " + (k3 + "Another")) + ">")
    requires (k1 == "Frame." && k2 == "" && k3 == "Two." && e == "Frame.Test<One, Two.Another>")
      || (k1 == "" && k2 == "Yo." && k3 == "" && e == "Yo.Test<One, Another>")
    ensures first == e
  {
  }

  lemma ModuleGenericsShape(f: string)
    ensures "Module." + "" + "String" + ("<" + (f + ", " + ("SwiftUI." + "" + "Main")) + ">") == "Module.String<" + f + ", SwiftUI.Main>"
  {
  }

  /** Keeping modules and generic arguments. */
  lemma OuterModuleGenerics(c: Components)
    requires c.rawValue == ModuleName | GenericTypeParameterNames
    ensures FormatTypeName(OuterName, c) == "Module.String<" + "Frame.Test<One, Two.Another>" + ", SwiftUI.Main>"
  {
    FirstArgumentFormats(c);
    OuterFormats(c);
    PiecesSpelled();
    ModuleGenericsSpelled(Keep(c, ModuleName, "Frame" + "."), Keep(c, NestingTypeNames, "Yo" + "."), Keep(c, ModuleName, "Two."),
      Keep(c, ModuleName, "Module" + "."), Keep(c, NestingTypeNames, Context + "." + "Wrapped" + "."),
      Keep(c, ModuleName, "SwiftUI" + "."), Keep(c, NestingTypeNames, "Sub" + "."), FormatTypeName(FirstArgument, c));
  }

  lemma NestingGenericsSpelled(k1: string, k2: string, k3: string, k4: string, k5: string, k6: string, k7: string, first: string)
    requires k1 == "" && k2 == "Yo." && k3 == ""
    requires k4 == "" && k5 == "(Unknown context at 0x213).Wrapped." && k6 == "" && k7 == "Sub."
    requires first == k1 + k2 + "Test" + ("<" + ("One" + ", " + (k3 + "Another")) + ">")
    ensures k4 + k5 + "String" + ("<" + (first + ", " + (k6 + k7 + "Main")) + ">")
      == "(Unknown context at 0x213).Wrapped.String<" + "Yo.Test<One, Another>" + ", Sub.Main>"
  {
    FirstSpelled(k1, k2, k3, first, "Yo.Test<One, Another>");
    NestingGenericsShape(first);
  }

  lemma NestingGenericsShape(f: string)
    ensures "" + "(Unknown context at 0x213).Wrapped." + "String" + ("<" + (f + ", " + ("" + "Sub." + "Main")) + ">")
      == "(Unknown context at 0x213).Wrapped.String<" + f + ", Sub.Main>"
  {
  }

  /** Keeping nesting types and generic arguments. */
  lemma OuterNestingGenerics(c: Components)
    requires c.rawValue == NestingTypeNames | GenericTypeParameterNames
    ensures FormatTypeName(OuterName, c) == "(Unknown context at 0x213).Wrapped.String<" + "Yo.Test<One, Another>" + ", Sub.Main>"
  {
    FirstArgumentFormats(c);
    OuterFormats(c);
    PiecesSpelled();
    NestingGenericsSpelled(Keep(c, ModuleName, "Frame" + "."), Keep(c, NestingTypeNames, "Yo" + "."), Keep(c, ModuleName, "Two."),
      Keep(c, ModuleName, "Module" + "."), Keep(c, NestingTypeNames, Context + "." + "Wrapped" + "."),
      Keep(c, ModuleName, "SwiftUI" + "."), Keep(c, NestingTypeNames, "Sub" + "."), FormatTypeName(FirstArgument, c));
  }
}
