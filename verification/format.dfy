/**
 * Formatting of names: the lazy-storage prefix on property names, the
 * decomposition of a type name into module, nesting types, base name and
 * generic arguments (with the arguments formatted recursively), whether a
 * type name is fully qualified, and the unqualified type names of a tree.
 */
module Formatting {
  import opened Wrappers
  import opened Limns

  // ---------------------------------------------------------------------------
  // Property names
  // ---------------------------------------------------------------------------

  /** The prefix the compiler gives the backing storage of a lazy property. */
  const LazyStoragePrefix: string := "$__lazy_storage_$_"

  /** Drops the lazy-storage prefix (18 characters) when the name starts with it. */
  function FormatPropertyName(name: string): (r: string)
    ensures LazyStoragePrefix <= name ==> LazyStoragePrefix + r == name
    ensures !(LazyStoragePrefix <= name) ==> r == name
  {
    if LazyStoragePrefix <= name then name[18..] else name
  }

  // ---------------------------------------------------------------------------
  // Splitting and joining
  // ---------------------------------------------------------------------------

  function Join(parts: seq<string>, sep: string): (r: string)
  {
    if parts == [] then ""
    else if |parts| == 1 then parts[0]
    else Join(parts[..|parts| - 1], sep) + sep + parts[|parts| - 1]
  }

  lemma JoinSnoc(parts: seq<string>, last: string, sep: string)
    requires parts != []
    ensures Join(parts + [last], sep) == Join(parts, sep) + sep + last
  {
    assert (parts + [last])[..|parts|] == parts;
  }

  /** The parts of `s` between occurrences of `sep`; there is always at least one part. */
  function SplitOn(s: string, sep: char): (r: seq<string>)
    ensures |r| >= 1
    ensures forall k :: 0 <= k < |r| ==> sep !in r[k]
    ensures sep !in s ==> r == [s]
  {
    if s == [] then [""]
    else
      var init := SplitOn(s[..|s| - 1], sep);
      var c := s[|s| - 1];
      if c == sep then init + [""]
      else
        assert sep !in s[..|s| - 1] ==> init == [s[..|s| - 1]];
        assert s == s[..|s| - 1] + [c];
        init[..|init| - 1] + [init[|init| - 1] + [c]]
  }

  /** Joining the parts with the separator gives `s` back. */
  lemma {:induction false} SplitOnJoin(s: string, sep: char)
    ensures Join(SplitOn(s, sep), [sep]) == s
    decreases |s|
  {
    if s != [] {
      var prefix := s[..|s| - 1];
      var c := s[|s| - 1];
      var init := SplitOn(prefix, sep);
      SplitOnJoin(prefix, sep);
      SplitOnStep(s, sep);
      assert s == prefix + [c];
      if c == sep {
        JoinSnoc(init, "", [sep]);
      } else if |init| > 1 {
        var front := init[..|init| - 1];
        assert front + [init[|init| - 1]] == init;
        JoinSnoc(front, init[|init| - 1], [sep]);
        JoinSnoc(front, init[|init| - 1] + [c], [sep]);
      }
    }
  }

  /** Splitting the joined parts gives the parts back when no part holds the separator. */
  lemma {:induction false} SplitJoin(parts: seq<string>, sep: char)
    requires parts != [] && forall k :: 0 <= k < |parts| ==> sep !in parts[k]
    ensures SplitOn(Join(parts, [sep]), sep) == parts
    decreases |parts|
  {
    if |parts| > 1 {
      var init := parts[..|parts| - 1];
      var last := parts[|parts| - 1];
      assert init + [last] == parts;
      assert forall k :: 0 <= k < |init| ==> init[k] == parts[k];
      SplitJoin(init, sep);
      assert sep !in last by { assert last == parts[|parts| - 1]; }
      SplitOnSnoc(Join(init, [sep]), last, sep);
      JoinSnoc(init, last, [sep]);
    }
  }

  /** One more character at the end either starts a new part or extends the last one. */
  lemma SplitOnStep(s: string, sep: char)
    requires s != []
    ensures var init := SplitOn(s[..|s| - 1], sep);
      var c := s[|s| - 1];
      SplitOn(s, sep) == if c == sep then init + [""] else init[..|init| - 1] + [init[|init| - 1] + [c]]
  {
  }

  lemma {:induction false} SplitOnSnoc(x: string, last: string, sep: char)
    requires sep !in last
    ensures SplitOn(x + [sep] + last, sep) == SplitOn(x, sep) + [last]
    decreases |last|
  {
    if last == [] {
      var s := x + [sep];
      SplitOnStep(s, sep);
      assert s[..|s| - 1] == x;
      assert s == x + [sep] + last;
    } else {
      var init := last[..|last| - 1];
      assert sep !in init by { assert forall k :: 0 <= k < |init| ==> init[k] == last[k]; }
      var c := last[|last| - 1];
      SplitOnSnoc(x, init, sep);
      ExtendLastPart(x + [sep] + init, SplitOn(x, sep), init, c, sep);
      assert x + [sep] + init + [c] == x + [sep] + last by { assert init + [c] == last; }
    }
  }

  /** The last part grows by the appended character when that character is not the separator. */
  lemma ExtendLastPart(s: string, p: seq<string>, init: string, c: char, sep: char)
    requires c != sep && SplitOn(s, sep) == p + [init]
    ensures SplitOn(s + [c], sep) == p + [init + [c]]
  {
    SplitOnExtend(s, c, sep);
    var before := p + [init];
    assert before[..|before| - 1] == p && before[|before| - 1] == init;
  }

  /** A character other than the separator extends the last part. */
  lemma SplitOnExtend(s: string, c: char, sep: char)
    requires c != sep
    ensures var parts := SplitOn(s, sep);
      SplitOn(s + [c], sep) == parts[..|parts| - 1] + [parts[|parts| - 1] + [c]]
  {
    SplitOnStep(s + [c], sep);
    assert (s + [c])[..|s|] == s;
  }

  /** The position of the first `c` in `s`, or `|s|` when there is none. */
  function FirstIndexOf(s: string, c: char): (r: nat)
    ensures r <= |s| && c !in s[..r] && (r < |s| ==> s[r] == c)
  {
    if s == [] then 0
    else if s[0] == c then 0
    else
      var r := 1 + FirstIndexOf(s[1..], c);
      assert s[..r] == [s[0]] + s[1..][..r - 1];
      r
  }

  /** The first `c` is at `i` when `i` holds `c` (or is the end) and nothing before it does. */
  lemma FirstIndexAt(s: string, c: char, i: nat)
    requires i <= |s| && c !in s[..i] && (i < |s| ==> s[i] == c)
    ensures FirstIndexOf(s, c) == i
  {
  }

  // ---------------------------------------------------------------------------
  // Generic argument lists
  // ---------------------------------------------------------------------------

  /** One character of the argument-list scan: a comma at bracket level 0 starts a new argument. */
  function SplitFrom(s: string, acc: seq<string>, level: int): (r: seq<string>)
    requires acc != []
    ensures r != []
    ensures Join(r, ",") == Join(acc, ",") + s
    decreases |s|
  {
    if s == [] then acc
    else
      var c := s[0];
      var level' := if c == '<' then level + 1 else if c == '>' then level - 1 else level;
      if level' == 0 && c == ',' then
        JoinSnoc(acc, "", ",");
        assert s == [c] + s[1..];
        SplitFrom(s[1..], acc + [""], level')
      else
        JoinStep(acc, c, ",");
        assert s == [c] + s[1..];
        SplitFrom(s[1..], acc[..|acc| - 1] + [acc[|acc| - 1] + [c]], level')
  }

  /** The bracket level after scanning `s` from `level`. */
  function LevelAfter(s: string, level: int): int
    decreases |s|
  {
    if s == [] then level
    else
      var c := s[0];
      LevelAfter(s[1..], if c == '<' then level + 1 else if c == '>' then level - 1 else level)
  }

  /** Scanning `s1 + s2` is scanning `s1`, then `s2` from where it left off. */
  lemma {:induction false} SplitFromAppend(s1: string, s2: string, acc: seq<string>, level: int)
    requires acc != []
    ensures SplitFrom(s1 + s2, acc, level) == SplitFrom(s2, SplitFrom(s1, acc, level), LevelAfter(s1, level))
    decreases |s1|
  {
    if s1 != [] {
      var c := s1[0];
      assert (s1 + s2)[0] == c && (s1 + s2)[1..] == s1[1..] + s2;
      var level' := if c == '<' then level + 1 else if c == '>' then level - 1 else level;
      if level' == 0 && c == ',' {
        SplitFromAppend(s1[1..], s2, acc + [""], level');
      } else {
        SplitFromAppend(s1[1..], s2, acc[..|acc| - 1] + [acc[|acc| - 1] + [c]], level');
      }
    } else {
      assert s1 + s2 == s2;
    }
  }

  predicate Plain(s: string) {
    forall k :: 0 <= k < |s| ==> s[k] != ',' && s[k] != '<' && s[k] != '>'
  }

  /** Text with no comma and no angle bracket extends the current argument. */
  lemma {:induction false} SplitFromPlain(s: string, acc: seq<string>, level: int)
    requires acc != [] && Plain(s)
    ensures SplitFrom(s, acc, level) == acc[..|acc| - 1] + [acc[|acc| - 1] + s]
    decreases |s|
  {
    if s != [] {
      var init := acc[..|acc| - 1];
      var last := acc[|acc| - 1];
      var acc' := init + [last + [s[0]]];
      assert SplitFrom(s, acc, level) == SplitFrom(s[1..], acc', level);
      assert Plain(s[1..]);
      SplitFromPlain(s[1..], acc', level);
      assert acc'[..|acc'| - 1] == init;
      assert s == [s[0]] + s[1..];
      calc {
        SplitFrom(s, acc, level);
        init + [acc'[|acc'| - 1] + s[1..]];
        init + [last + [s[0]] + s[1..]];
        { assert last + [s[0]] + s[1..] == last + ([s[0]] + s[1..]); }
        init + [last + s];
      }
    } else {
      assert acc[|acc| - 1] + s == acc[|acc| - 1];
      assert acc[..|acc| - 1] + [acc[|acc| - 1]] == acc;
    }
  }

  /** Text with no angle bracket leaves the level where it was. */
  lemma {:induction false} PlainLevel(s: string, level: int)
    requires Plain(s)
    ensures LevelAfter(s, level) == level
    decreases |s|
  {
    if s != [] {
      assert Plain(s[1..]);
      PlainLevel(s[1..], level);
    }
  }

  /** Appending a character to the last part appends it to the joined whole. */
  lemma JoinStep(acc: seq<string>, c: char, sep: string)
    requires acc != []
    ensures Join(acc[..|acc| - 1] + [acc[|acc| - 1] + [c]], sep) == Join(acc, sep) + [c]
  {
    var init := acc[..|acc| - 1];
    var last := acc[|acc| - 1];
    assert init + [last] == acc;
    if init != [] {
      var x := Join(init, sep);
      calc {
        Join(init + [last + [c]], sep);
        { JoinSnoc(init, last + [c], sep); }
        x + sep + (last + [c]);
        (x + sep + last) + [c];
        { JoinSnoc(init, last, sep); }
        Join(acc, sep) + [c];
      }
    }
  }

  /** The generic arguments: split on commas outside nested angle brackets. */
  function SplitArguments(s: string): (r: seq<string>)
    ensures r != [] && Join(r, ",") == s
  {
    SplitFrom(s, [""], 0)
  }

  /** Every part is at most as long as the joined whole. */
  lemma PartNoLonger(parts: seq<string>, sep: string, k: nat)
    requires k < |parts|
    ensures |parts[k]| <= |Join(parts, sep)|
  {
    if k < |parts| - 1 {
      PartNoLonger(parts[..|parts| - 1], sep, k);
    }
  }

  /** White space and line breaks, as the standard library's trimming set has them. */
  predicate IsWhitespace(c: char) {
    c == ' ' || ('\U{0009}' <= c <= '\U{000D}') || c == '\U{0085}' || c == '\U{00A0}'
    || c == '\U{1680}' || ('\U{2000}' <= c <= '\U{200A}') || c == '\U{2028}' || c == '\U{2029}'
    || c == '\U{202F}' || c == '\U{205F}' || c == '\U{3000}'
  }

  /** `s` without leading and trailing white space. */
  function Trim(s: string): (r: string)
    ensures |r| <= |s|
    ensures r != [] ==> !IsWhitespace(r[0]) && !IsWhitespace(r[|r| - 1])
    decreases |s|
  {
    if s == [] then s
    else if IsWhitespace(s[0]) then Trim(s[1..])
    else if IsWhitespace(s[|s| - 1]) then Trim(s[..|s| - 1])
    else s
  }

  // ---------------------------------------------------------------------------
  // Type names
  // ---------------------------------------------------------------------------

  /**
   * Which optional parts of a type name to keep, as a set of bits in an
   * unsigned 64-bit word: 1 the module, 2 the nesting types, 4 the generic
   * arguments. Exactly 7 keeps the name as it is.
   */
  datatype Components = Components(rawValue: bv64)

  const ModuleName: bv64 := 1
  const NestingTypeNames: bv64 := 2
  const GenericTypeParameterNames: bv64 := 4
  const AllComponents: Components := Components(7)

  predicate Includes(c: Components, bit: bv64) {
    c.rawValue & bit != 0
  }

  /** The four parts a type name decomposes into. */
  datatype TypeNameParts = TypeNameParts(moduleName: string, nesting: string, base: string, generics: string)

  /**
   * The decomposition of `name`: the text before the first '<' is dot-separated
   * parts, all non-empty except possibly the last; the first part (with its
   * dot) is the module when there is more than one part, the middle parts are
   * the nesting types, the last part is the base name; what follows must be
   * nothing or an angle-bracketed argument list that ends the name.
   */
  function Decompose(name: string): (r: Option<TypeNameParts>)
    ensures r.Some? ==> '<' !in r.value.base && '.' !in r.value.base
  {
    var i := FirstIndexOf(name, '<');
    var parts := SplitOn(name[..i], '.');
    assert '<' !in parts[|parts| - 1] by {
      SplitOnJoin(name[..i], '.');
      SubPartNoAngle(parts, |parts| - 1, name[..i]);
    }
    Assemble(parts, name[i..])
  }

  /** The parts of the head and the rest of the name, assembled into the four groups. */
  function Assemble(parts: seq<string>, rest: string): (r: Option<TypeNameParts>)
    requires parts != []
    ensures r.Some? ==> r.value.base == parts[|parts| - 1]
  {
    var n := |parts|;
    if exists k :: 0 <= k < n - 1 && parts[k] == [] then None
    else if !(rest == [] || (|rest| >= 2 && rest[|rest| - 1] == '>')) then None
    else
      Some(TypeNameParts(
        if n == 1 then "" else parts[0] + ".",
        if n <= 2 then "" else Join(parts[1..n - 1], ".") + ".",
        parts[n - 1],
        if rest == [] then "" else rest[1..|rest| - 1]))
  }

  lemma SubPartNoAngle(parts: seq<string>, k: nat, whole: string)
    requires k < |parts| && Join(parts, ".") == whole && '<' !in whole
    ensures '<' !in parts[k]
  {
    if k < |parts| - 1 {
      SubPartNoAngle(parts[..|parts| - 1], k, Join(parts[..|parts| - 1], "."));
    }
  }

  /** The formatted type name: only the requested parts, generic arguments formatted the same way. */
  function FormatTypeName(name: string, components: Components): (r: string)
    ensures components == AllComponents || Decompose(name).None? ==> r == name
    decreases |name|
  {
    if components == AllComponents then name
    else match Decompose(name)
      case None => name
      case Some(g) =>
        var keepGenerics := Includes(components, GenericTypeParameterNames) && g.generics != [];
        (if Includes(components, ModuleName) then g.moduleName else "")
        + (if Includes(components, NestingTypeNames) then g.nesting else "")
        + g.base
        + (if keepGenerics then "<" + Join(FormatArguments(g.generics, components, |name|), ", ") + ">" else "")
  }

  function FormatArguments(generics: string, components: Components, bound: nat): (r: seq<string>)
    requires |generics| < bound
    decreases bound, 0
  {
    var args := SplitArguments(generics);
    seq(|args|, k requires 0 <= k < |args| =>
      PartNoLonger(args, ",", k);
      FormatTypeName(Trim(args[k]), components))
  }

  /** Type names and their decomposition: the parts tile the name. */
  lemma DecomposeTiles(name: string)
    requires Decompose(name).Some?
    ensures var g := Decompose(name).value;
      name == g.moduleName + g.nesting + g.base
      || name == g.moduleName + g.nesting + g.base + "<" + g.generics + ">"
  {
    var i := FirstIndexOf(name, '<');
    DecomposeHead(name);
    DecomposeRest(name);
    assert name == name[..i] + name[i..];
  }

  lemma DecomposeHead(name: string)
    requires Decompose(name).Some?
    ensures var g := Decompose(name).value;
      name[..FirstIndexOf(name, '<')] == g.moduleName + g.nesting + g.base
  {
    var head := name[..FirstIndexOf(name, '<')];
    SplitOnJoin(head, '.');
    HeadTiles(SplitOn(head, '.'), ".");
  }

  lemma DecomposeRest(name: string)
    requires Decompose(name).Some?
    ensures var rest := name[FirstIndexOf(name, '<')..];
      rest == [] || rest == "<" + Decompose(name).value.generics + ">"
  {
    var rest := name[FirstIndexOf(name, '<')..];
    if rest != [] {
      Bracketed(rest);
    }
  }

  /** A character in neither the parts nor the separator is not in the joined whole. */
  lemma {:induction false} JoinAvoids(parts: seq<string>, sep: string, c: char)
    requires c !in sep && forall k :: 0 <= k < |parts| ==> c !in parts[k]
    ensures c !in Join(parts, sep)
    decreases |parts|
  {
    if |parts| > 1 {
      JoinAvoids(parts[..|parts| - 1], sep, c);
    }
  }

  /**
   * The decomposition of a name built from dot-separated parts and an
   * optional bracketed argument list: the inverse of the tiling.
   */
  lemma DecomposeParts(parts: seq<string>, rest: string)
    requires parts != []
    requires forall k :: 0 <= k < |parts| ==> '.' !in parts[k] && '<' !in parts[k]
    requires forall k :: 0 <= k < |parts| - 1 ==> parts[k] != []
    requires rest == [] || (|rest| >= 2 && rest[0] == '<' && rest[|rest| - 1] == '>')
    ensures var n := |parts|;
      Decompose(Join(parts, ".") + rest) == Some(TypeNameParts(
        if n == 1 then "" else parts[0] + ".",
        if n <= 2 then "" else Join(parts[1..n - 1], ".") + ".",
        parts[n - 1],
        if rest == [] then "" else rest[1..|rest| - 1]))
  {
    var head := Join(parts, ".");
    var name := head + rest;
    assert Decompose(name) == Assemble(parts, rest) by {
      JoinAvoids(parts, ".", '<');
      FirstIndexAt(name, '<', |head|);
      assert name[..|head|] == head && name[|head|..] == rest;
      SplitJoin(parts, '.');
    }
  }

  lemma Bracketed(s: string)
    requires |s| >= 2 && s[0] == '<' && s[|s| - 1] == '>'
    ensures s == "<" + s[1..|s| - 1] + ">"
  {
  }

  /** The module, nesting and base parts, with their separators, give back the joined head. */
  lemma HeadTiles(parts: seq<string>, sep: string)
    requires parts != []
    ensures var n := |parts|;
      Join(parts, sep)
      == (if n == 1 then "" else parts[0] + sep)
         + (if n <= 2 then "" else Join(parts[1..n - 1], sep) + sep)
         + parts[n - 1]
  {
    var n := |parts|;
    if n == 2 {
      assert parts[..1] == [parts[0]];
      assert Join(parts, sep) == parts[0] + sep + parts[1];
    } else if n > 2 {
      HeadTilesMany(parts, sep);
    }
  }

  lemma HeadTilesMany(parts: seq<string>, sep: string)
    requires |parts| > 2
    ensures Join(parts, sep) == (parts[0] + sep) + (Join(parts[1..|parts| - 1], sep) + sep) + parts[|parts| - 1]
  {
    var n := |parts|;
    var init := parts[..n - 1];
    var mid := parts[1..n - 1];
    assert init == [parts[0]] + mid;
    JoinCons(parts[0], mid, sep);
    assert Join(parts, sep) == Join(init, sep) + sep + parts[n - 1];
  }

  lemma JoinCons(first: string, more: seq<string>, sep: string)
    requires more != []
    ensures Join([first] + more, sep) == first + sep + Join(more, sep)
    decreases |more|
  {
    var all := [first] + more;
    if |more| == 1 {
      assert all[..1] == [first];
    } else {
      var init := more[..|more| - 1];
      assert all[..|all| - 1] == [first] + init;
      JoinCons(first, init, sep);
    }
  }

  /** A name with no dot and no angle bracket is its own base name, whatever is kept. */
  lemma SimpleNameUnchanged(name: string, components: Components)
    requires '.' !in name && '<' !in name
    ensures FormatTypeName(name, components) == name
  {
    var i := FirstIndexOf(name, '<');
    assert name[..i] == name;
  }

  /** With no component kept, a decomposable name formats to its base name. */
  lemma NoComponentsGivesBase(name: string)
    requires Decompose(name).Some?
    ensures FormatTypeName(name, Components(0)) == Decompose(name).value.base
  {
  }

  // ---------------------------------------------------------------------------
  // Fully qualified type names
  // ---------------------------------------------------------------------------

  /** The characters a regular-expression word class matches, restricted to ASCII. */
  predicate IsWordChar(c: char) {
    ('a' <= c <= 'z') || ('A' <= c <= 'Z') || ('0' <= c <= '9') || c == '_'
  }

  predicate IsWord(s: string) {
    s != [] && forall k :: 0 <= k < |s| ==> IsWordChar(s[k])
  }

  /**
   * A name is fully qualified when the text before its first '<' (or all of
   * it) is two or more words joined by dots.
   */
  predicate IsFullyQualifiedTypeName(name: string) {
    var parts := SplitOn(name[..FirstIndexOf(name, '<')], '.');
    |parts| >= 2 && forall k :: 0 <= k < |parts| ==> IsWord(parts[k])
  }

  /** A fully qualified name without generic arguments decomposes, and it has a module. */
  lemma FullyQualifiedHasModule(name: string)
    requires IsFullyQualifiedTypeName(name) && '<' !in name
    ensures Decompose(name).Some? && Decompose(name).value.moduleName != []
  {
    var i := FirstIndexOf(name, '<');
    assert name[i..] == [];
  }

  /** The names `x` declares as class, enum or struct, anywhere in the tree, dictionary keys included. */
  ghost predicate Declares(x: Limn, n: string)
    decreases x
  {
    match x
    case Class(name, _, ps) => name == n || exists p :: p in ps && Declares(p.value, n)
    case Collection(es) => exists e :: e in es && Declares(e, n)
    case Dictionary(kvs) => exists kv :: kv in kvs && (Declares(kv.key, n) || Declares(kv.value, n))
    case Enum(name, _, av) => name == n || (av.Some? && Declares(av.value, n))
    case Optional(w) => w.Some? && Declares(w.value, n)
    case Set(es) => exists e :: e in es && Declares(e, n)
    case Struct(name, ps) => name == n || exists p :: p in ps && Declares(p.value, n)
    case Tuple(ps) => exists p :: p in ps && Declares(p.value, n)
    case Value(_) => false
    case Omitted(_) => false
  }

  function Unqualified(name: string): (r: seq<string>)
    ensures forall k :: 0 <= k < |r| ==> !IsFullyQualifiedTypeName(r[k])
  {
    if IsFullyQualifiedTypeName(name) then [] else [name]
  }

  /**
   * The class, enum and struct names in `x` that are not fully qualified:
   * the node's own name first, then its children in order; for a dictionary
   * all keys' names come before all values' names.
   */
  function NonFullyQualifiedTypeNames(x: Limn): (r: seq<string>)
    ensures forall k :: 0 <= k < |r| ==> !IsFullyQualifiedTypeName(r[k])
    ensures x.Value? || x.Omitted? ==> r == []
    decreases x, 1
  {
    match x
    case Class(name, _, ps) => Unqualified(name) + LabeledNames(ps)
    case Collection(es) => ElementNames(es)
    case Dictionary(kvs) => KeyNames(kvs) + ValueNames(kvs)
    case Enum(name, _, av) => Unqualified(name) + (if av.Some? then NonFullyQualifiedTypeNames(av.value) else [])
    case Optional(w) => if w.Some? then NonFullyQualifiedTypeNames(w.value) else []
    case Set(es) => ElementNames(es)
    case Struct(name, ps) => Unqualified(name) + LabeledNames(ps)
    case Tuple(ps) => LabeledNames(ps)
    case Value(_) => []
    case Omitted(_) => []
  }

  function LabeledNames(ps: seq<LabeledLimn>): (r: seq<string>)
    ensures forall k :: 0 <= k < |r| ==> !IsFullyQualifiedTypeName(r[k])
    decreases ps, 0
  {
    if ps == [] then []
    else
      assert ps[0] in ps && ps[0].value < ps[0];
      NonFullyQualifiedTypeNames(ps[0].value) + LabeledNames(ps[1..])
  }

  function ElementNames(es: seq<Limn>): (r: seq<string>)
    ensures forall k :: 0 <= k < |r| ==> !IsFullyQualifiedTypeName(r[k])
    decreases es, 0
  {
    if es == [] then []
    else
      assert es[0] in es;
      NonFullyQualifiedTypeNames(es[0]) + ElementNames(es[1..])
  }

  function KeyNames(kvs: seq<KeyedLimn>): (r: seq<string>)
    ensures forall k :: 0 <= k < |r| ==> !IsFullyQualifiedTypeName(r[k])
    decreases kvs, 0
  {
    if kvs == [] then []
    else
      assert kvs[0] in kvs && kvs[0].key < kvs[0];
      NonFullyQualifiedTypeNames(kvs[0].key) + KeyNames(kvs[1..])
  }

  function ValueNames(kvs: seq<KeyedLimn>): (r: seq<string>)
    ensures forall k :: 0 <= k < |r| ==> !IsFullyQualifiedTypeName(r[k])
    decreases kvs, 0
  {
    if kvs == [] then []
    else
      assert kvs[0] in kvs && kvs[0].value < kvs[0];
      NonFullyQualifiedTypeNames(kvs[0].value) + ValueNames(kvs[1..])
  }

  /** The names listed are exactly the unqualified names the tree declares. */
  lemma {:induction false} NonFullyQualifiedMembers(x: Limn, n: string)
    ensures n in NonFullyQualifiedTypeNames(x) <==> Declares(x, n) && !IsFullyQualifiedTypeName(n)
    decreases x, 1
  {
    match x
    case Class(name, _, ps) => LabeledNamesMembers(ps, n);
    case Collection(es) => ElementNamesMembers(es, n);
    case Dictionary(kvs) => KeyNamesMembers(kvs, n); ValueNamesMembers(kvs, n);
    case Enum(name, _, av) => if av.Some? { NonFullyQualifiedMembers(av.value, n); }
    case Optional(w) => if w.Some? { NonFullyQualifiedMembers(w.value, n); }
    case Set(es) => ElementNamesMembers(es, n);
    case Struct(name, ps) => LabeledNamesMembers(ps, n);
    case Tuple(ps) => LabeledNamesMembers(ps, n);
    case Value(_) =>
    case Omitted(_) =>
  }

  lemma {:induction false} LabeledNamesMembers(ps: seq<LabeledLimn>, n: string)
    ensures n in LabeledNames(ps) <==> (exists p :: p in ps && Declares(p.value, n)) && !IsFullyQualifiedTypeName(n)
    decreases ps, 0
  {
    if ps != [] {
      assert ps[0] in ps && ps[0].value < ps[0];
      NonFullyQualifiedMembers(ps[0].value, n);
      LabeledNamesMembers(ps[1..], n);
      assert ps == [ps[0]] + ps[1..];
    }
  }

  lemma {:induction false} ElementNamesMembers(es: seq<Limn>, n: string)
    ensures n in ElementNames(es) <==> (exists e :: e in es && Declares(e, n)) && !IsFullyQualifiedTypeName(n)
    decreases es, 0
  {
    if es != [] {
      assert es[0] in es;
      NonFullyQualifiedMembers(es[0], n);
      ElementNamesMembers(es[1..], n);
      assert es == [es[0]] + es[1..];
    }
  }

  lemma {:induction false} KeyNamesMembers(kvs: seq<KeyedLimn>, n: string)
    ensures n in KeyNames(kvs) <==> (exists kv :: kv in kvs && Declares(kv.key, n)) && !IsFullyQualifiedTypeName(n)
    decreases kvs, 0
  {
    if kvs != [] {
      assert kvs[0] in kvs && kvs[0].key < kvs[0];
      NonFullyQualifiedMembers(kvs[0].key, n);
      KeyNamesMembers(kvs[1..], n);
      assert kvs == [kvs[0]] + kvs[1..];
    }
  }

  lemma {:induction false} ValueNamesMembers(kvs: seq<KeyedLimn>, n: string)
    ensures n in ValueNames(kvs) <==> (exists kv :: kv in kvs && Declares(kv.value, n)) && !IsFullyQualifiedTypeName(n)
    decreases kvs, 0
  {
    if kvs != [] {
      assert kvs[0] in kvs && kvs[0].value < kvs[0];
      NonFullyQualifiedMembers(kvs[0].value, n);
      ValueNamesMembers(kvs[1..], n);
      assert kvs == [kvs[0]] + kvs[1..];
    }
  }
}
