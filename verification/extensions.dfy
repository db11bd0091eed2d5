/**
 * The small sequence, string and address utilities the library builds on:
 * a bounds-checked subscript, fixed-size chunking, line indentation and
 * rounding an address up to a stride.
 */
module Extensions {
  import opened Wrappers

  // ---------------------------------------------------------------------------
  // Safe subscript
  // ---------------------------------------------------------------------------

  /** The element at `i` when `i` is a valid index, nothing otherwise. */
  function SafeIndex<T>(xs: seq<T>, i: int): (r: Option<T>)
    ensures r.Some? <==> 0 <= i < |xs|
    ensures r.Some? ==> r.value == xs[i]
  {
    if 0 <= i < |xs| then Some(xs[i]) else None
  }

  // ---------------------------------------------------------------------------
  // Chunking
  // ---------------------------------------------------------------------------

  function Flatten<T>(xss: seq<seq<T>>): (r: seq<T>)
  {
    if xss == [] then [] else Flatten(xss[..|xss| - 1]) + xss[|xss| - 1]
  }

  lemma FlattenSnoc<T>(xss: seq<seq<T>>, xs: seq<T>)
    ensures Flatten(xss + [xs]) == Flatten(xss) + xs
  {
    assert (xss + [xs])[..|xss|] == xss;
  }

  /** The chunk size below which nothing is ever cut: every chunk holds at least its first element. */
  function EffectiveSize(chunkSize: int): (r: nat)
    ensures r >= 1 && (chunkSize >= 1 ==> r == chunkSize)
  {
    if chunkSize < 1 then 1 else chunkSize
  }

  /** Reads one chunk starting at `start`: the first element, then more while the chunk is short and input remains. */
  method TakeChunk<T>(xs: seq<T>, start: nat, chunkSize: int) returns (chunk: seq<T>, next: nat)
    requires start < |xs|
    ensures next == if start + EffectiveSize(chunkSize) <= |xs| then start + EffectiveSize(chunkSize) else |xs|
    ensures chunk == xs[start..next]
  {
    chunk := [xs[start]];
    next := start + 1;
    while |chunk| < chunkSize && next < |xs|
      invariant start < next <= |xs|
      invariant chunk == xs[start..next]
      invariant |chunk| <= EffectiveSize(chunkSize)
    {
      chunk := chunk + [xs[next]];
      next := next + 1;
    }
  }

  /** Chunks of the input in order; a `chunkSize` below 1 behaves as 1 except that no chunk is then "full". */
  method Chunked<T>(xs: seq<T>, chunkSize: int, includingRemainder: bool) returns (chunks: seq<seq<T>>)
    ensures includingRemainder ==> Flatten(chunks) == xs
    ensures includingRemainder ==>
              forall k :: 0 <= k < |chunks| ==> 0 < |chunks[k]| <= EffectiveSize(chunkSize)
    ensures includingRemainder ==>
              forall k :: 0 <= k < |chunks| - 1 ==> |chunks[k]| == EffectiveSize(chunkSize)
    ensures !includingRemainder ==> forall k :: 0 <= k < |chunks| ==> |chunks[k]| == chunkSize
    ensures !includingRemainder ==> Flatten(chunks) <= xs
    ensures !includingRemainder && chunkSize >= 1 ==> |xs| - |Flatten(chunks)| < chunkSize
    ensures !includingRemainder && chunkSize < 1 ==> chunks == []
  {
    var size := EffectiveSize(chunkSize);
    chunks := [];
    var next := 0;
    while next < |xs|
      invariant 0 <= next <= |xs|
      invariant includingRemainder ==> Flatten(chunks) == xs[..next]
      invariant includingRemainder ==> forall k :: 0 <= k < |chunks| ==> 0 < |chunks[k]| <= size
      invariant includingRemainder ==> forall k :: 0 <= k < |chunks| - 1 ==> |chunks[k]| == size
      invariant includingRemainder && |chunks| > 0 && |chunks[|chunks| - 1]| < size ==> next == |xs|
      invariant !includingRemainder ==> forall k :: 0 <= k < |chunks| ==> |chunks[k]| == chunkSize
      invariant !includingRemainder ==> |Flatten(chunks)| <= next && Flatten(chunks) == xs[..|Flatten(chunks)|]
      invariant !includingRemainder && chunkSize >= 1 ==>
                  next == |Flatten(chunks)| || (next == |xs| && |xs| - |Flatten(chunks)| < size)
      invariant !includingRemainder && chunkSize < 1 ==> chunks == []
    {
      var start := next;
      var current;
      current, next := TakeChunk(xs, start, chunkSize);
      if includingRemainder || |current| == chunkSize {
        FlattenSnoc(chunks, current);
        assert xs[..next] == xs[..start] + current;
        chunks := chunks + [current];
      }
    }
  }

  // ---------------------------------------------------------------------------
  // Indentation
  // ---------------------------------------------------------------------------

  /** `s` written `n` times in a row. */
  function Repeat(s: string, n: nat): (r: string)
    ensures |r| == n * |s|
    ensures n > 0 ==> s <= r
    ensures forall c :: c in r ==> c in s
  {
    if n == 0 then "" else s + Repeat(s, n - 1)
  }

  /** Every newline of `s` followed by `p`. */
  function AfterNewlines(s: string, p: string): (r: string)
    ensures |r| >= |s|
  {
    if s == [] then []
    else if s[0] == '\n' then "\n" + p + AfterNewlines(s[1..], p)
    else [s[0]] + AfterNewlines(s[1..], p)
  }

  /** Indents every line of `s` by `prefix` written `count` times; a count of 0 or less changes nothing. */
  function Indented(s: string, prefix: string, count: int): (r: string)
    ensures count <= 0 ==> r == s
    ensures count > 0 ==> Repeat(prefix, count) <= r
  {
    if count <= 0 then s
    else
      var p := Repeat(prefix, count);
      p + AfterNewlines(s, p)
  }

  function CountOf(s: string, c: char): (r: nat)
    ensures r <= |s|
  {
    if s == [] then 0 else (if s[0] == c then 1 else 0) + CountOf(s[1..], c)
  }

  lemma CountOfAppend(s: string, t: string, c: char)
    ensures CountOf(s + t, c) == CountOf(s, c) + CountOf(t, c)
  {
    if s != [] {
      var u := s + t;
      assert u[0] == s[0] && u[1..] == s[1..] + t;
      CountOfAppend(s[1..], t, c);
      assert CountOf(u, c) == (if u[0] == c then 1 else 0) + CountOf(u[1..], c);
    } else {
      assert s + t == t;
    }
  }

  /** Indenting adds no line: a prefix without newlines keeps the newline count. */
  lemma {:induction false} AfterNewlinesKeepsLines(s: string, p: string)
    requires '\n' !in p
    ensures CountOf(AfterNewlines(s, p), '\n') == CountOf(s, '\n')
  {
    if s != [] {
      AfterNewlinesKeepsLines(s[1..], p);
      var head := if s[0] == '\n' then "\n" + p else [s[0]];
      CountOfAppend(head, AfterNewlines(s[1..], p), '\n');
      if s[0] == '\n' {
        CountOfAppend("\n", p, '\n');
        PrefixFreeCount(p);
      }
    }
  }

  lemma PrefixFreeCount(p: string)
    requires '\n' !in p
    ensures CountOf(p, '\n') == 0
  {
    if p != [] {
      PrefixFreeCount(p[1..]);
    }
  }

  lemma IndentedKeepsLines(s: string, prefix: string, count: int)
    requires '\n' !in prefix
    ensures CountOf(Indented(s, prefix, count), '\n') == CountOf(s, '\n')
  {
    if count > 0 {
      var p := Repeat(prefix, count);
      assert '\n' !in p;
      AfterNewlinesKeepsLines(s, p);
      CountOfAppend(p, AfterNewlines(s, p), '\n');
      PrefixFreeCount(p);
    }
  }

  /** Removes `p` after every newline that it follows: the inverse of `AfterNewlines`. */
  function StripAfterNewlines(r: string, p: string): string
    decreases |r|
  {
    if r == [] then []
    else if r[0] == '\n' && p <= r[1..] then "\n" + StripAfterNewlines(r[1 + |p|..], p)
    else [r[0]] + StripAfterNewlines(r[1..], p)
  }

  lemma {:induction false} StripAfterNewlinesInverse(s: string, p: string)
    ensures StripAfterNewlines(AfterNewlines(s, p), p) == s
  {
    if s != [] {
      StripAfterNewlinesInverse(s[1..], p);
      var r := AfterNewlines(s, p);
      if s[0] == '\n' {
        assert r[1..] == p + AfterNewlines(s[1..], p);
        assert r[1 + |p|..] == AfterNewlines(s[1..], p);
      } else {
        assert r[1..] == AfterNewlines(s[1..], p);
      }
    }
  }

  /** Undoes `Indented`: drops the leading prefix and the prefix after every newline. */
  function Unindented(r: string, prefix: string, count: int): string {
    if count <= 0 then r
    else
      var p := Repeat(prefix, count);
      if p <= r then StripAfterNewlines(r[|p|..], p) else r
  }

  lemma IndentedRoundTrip(s: string, prefix: string, count: int)
    ensures Unindented(Indented(s, prefix, count), prefix, count) == s
  {
    if count > 0 {
      var p := Repeat(prefix, count);
      var r := Indented(s, prefix, count);
      assert r[|p|..] == AfterNewlines(s, p);
      StripAfterNewlinesInverse(s, p);
    }
  }

  // ---------------------------------------------------------------------------
  // Address alignment
  // ---------------------------------------------------------------------------

  lemma MulAtLeast(k: int, d: int)
    requires k >= 1 && d >= 1
    ensures k * d >= d
  {
  }

  /** Quotient and remainder are the unique pair that rebuilds the dividend. */
  lemma DivModUnique(x: int, q: int, r: int, d: int)
    requires d >= 1 && 0 <= r < d && x == q * d + r
    ensures x % d == r && x / d == q
  {
    var q', r' := x / d, x % d;
    assert x == q' * d + r';
    var k := q - q';
    assert k * d == r' - r;
    if k >= 1 {
      MulAtLeast(k, d);
    }
  }

  /** Rounds `address` up to a multiple of `stride`; strides are never below 1. */
  function AlignedUp(address: nat, stride: int): (r: nat)
    requires stride >= 1
    ensures address <= r < address + stride
    ensures r % stride == 0
  {
    var offset := address % stride;
    var q := address / stride;
    assert address == q * stride + offset;
    assert offset > 0 ==> (address + stride - offset) % stride == 0 by {
      if offset > 0 {
        DivModUnique(address + stride - offset, q + 1, 0, stride);
      }
    }
    address + (if offset > 0 then stride - offset else 0)
  }

  /** No multiple of the stride lies between the address and its aligned value. */
  lemma AlignedUpSmallest(address: nat, stride: int, m: nat)
    requires stride >= 1
    requires address <= m && m % stride == 0
    ensures AlignedUp(address, stride) <= m
  {
    var r := AlignedUp(address, stride);
    var j, i := m / stride, r / stride;
    assert m == j * stride;
    assert r == i * stride;
    if m < r {
      var k := i - j;
      assert k * stride == r - m;
      assert k >= 1;
      MulAtLeast(k, stride);
      assert false;
    }
  }
}
