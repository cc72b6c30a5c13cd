/** The bytes of a file along its chain, and the chunks `writeFatFile` and `readFatFile` cut a
    transfer into. */
module FatContent {
  import opened Bytes
  import opened FatChains

  /** Every cluster of the chain exists and holds `size` bytes. */
  ghost predicate Sized(data: seq<seq<byte>>, ch: seq<nat>, size: nat) {
    forall i {:trigger ch[i]} :: 0 <= i < |ch| ==> ch[i] < |data| && |data[ch[i]]| == size
  }

  /** The clusters of a chain, end to end. */
  ghost function Content(data: seq<seq<byte>>, ch: seq<nat>): seq<byte>
    requires forall i :: 0 <= i < |ch| ==> ch[i] < |data|
  {
    if ch == [] then [] else Content(data, ch[..|ch| - 1]) + data[ch[|ch| - 1]]
  }

  lemma {:induction false} ContentLength(data: seq<seq<byte>>, ch: seq<nat>, size: nat)
    requires Sized(data, ch, size)
    ensures |Content(data, ch)| == Times(|ch|, size)
  {
    if ch != [] { ContentLength(data, ch[..|ch| - 1], size); }
  }

  lemma {:induction false} ContentAt(data: seq<seq<byte>>, ch: seq<nat>, size: nat, i: nat)
    requires Sized(data, ch, size) && i < |ch|
    ensures Times(i, size) + size <= |Content(data, ch)| == Times(|ch|, size)
    ensures Content(data, ch)[Times(i, size)..Times(i, size) + size] == data[ch[i]]
  {
    ContentLength(data, ch, size);
    var n := |ch| - 1;
    ContentLength(data, ch[..n], size);
    if i < n {
      ContentAt(data, ch[..n], size, i);
      SliceInFront(Content(data, ch[..n]), data[ch[n]], Times(i, size), Times(i, size) + size);
    } else {
      SliceBehind(Content(data, ch[..n]), data[ch[n]], Times(i, size) + size);
    }
  }

  lemma SliceInFront(a: seq<byte>, b: seq<byte>, lo: nat, hi: nat)
    requires lo <= hi <= |a|
    ensures (a + b)[lo..hi] == a[lo..hi]
  {
  }

  lemma SliceBehind(a: seq<byte>, b: seq<byte>, end: nat)
    requires end == |a| + |b|
    ensures (a + b)[|a|..end] == b
  {
  }

  lemma {:induction false} ContentSame(data: seq<seq<byte>>, data': seq<seq<byte>>, ch: seq<nat>)
    requires forall i :: 0 <= i < |ch| ==> ch[i] < |data| && ch[i] < |data'| && data[ch[i]] == data'[ch[i]]
    ensures Content(data, ch) == Content(data', ch)
  {
    if ch != [] { ContentSame(data, data', ch[..|ch| - 1]); }
  }

  lemma {:induction false} ContentPrefix(data: seq<seq<byte>>, ch: seq<nat>, size: nat, n: nat)
    requires Sized(data, ch, size) && n <= |ch|
    ensures |Content(data, ch[..n])| == Times(n, size) <= |Content(data, ch)|
    ensures Content(data, ch)[..Times(n, size)] == Content(data, ch[..n])
    decreases |ch|
  {
    ContentLength(data, ch[..n], size);
    if n < |ch| {
      var m := |ch| - 1;
      ContentPrefix(data, ch[..m], size, n);
      assert ch[..m][..n] == ch[..n];
    } else {
      assert ch[..n] == ch;
    }
  }

  lemma ContentAppend(data: seq<seq<byte>>, ch: seq<nat>, c: nat)
    requires c < |data| && forall i :: 0 <= i < |ch| ==> ch[i] < |data|
    ensures Content(data, ch + [c]) == Content(data, ch) + data[c]
  {
    assert (ch + [c])[..|ch|] == ch;
  }

  /** Writing into cluster `i` of a chain splices the file. */
  lemma {:induction false} ContentPatched(data: seq<seq<byte>>, data': seq<seq<byte>>, ch: seq<nat>, size: nat,
                                          i: nat, offset: nat, chunk: seq<byte>)
    requires Sized(data, ch, size) && Sized(data', ch, size) && i < |ch| && offset + |chunk| <= size
    requires data'[ch[i]] == Splice(data[ch[i]], offset, chunk)
    requires forall j {:trigger ch[j]} :: 0 <= j < |ch| && j != i ==> data'[ch[j]] == data[ch[j]]
    ensures Times(i, size) + size <= |Content(data, ch)|
    ensures Content(data', ch) == Splice(Content(data, ch), Times(i, size) + offset, chunk)
    decreases |ch|
  {
    var n := |ch| - 1;
    if i == n {
      PatchedLast(data, data', ch, size, offset, chunk);
    } else {
      ContentPatched(data, data', ch[..n], size, i, offset, chunk);
      PatchedFront(data, data', ch, Times(i, size) + offset, chunk);
    }
  }

  lemma PatchedFront(data: seq<seq<byte>>, data': seq<seq<byte>>, ch: seq<nat>, at: nat, chunk: seq<byte>)
    requires |ch| > 0 && forall i :: 0 <= i < |ch| ==> ch[i] < |data| && ch[i] < |data'|
    requires data'[ch[|ch| - 1]] == data[ch[|ch| - 1]]
    requires at + |chunk| <= |Content(data, ch[..|ch| - 1])|
    requires Content(data', ch[..|ch| - 1]) == Splice(Content(data, ch[..|ch| - 1]), at, chunk)
    ensures at + |chunk| <= |Content(data, ch)|
    ensures Content(data', ch) == Splice(Content(data, ch), at, chunk)
  {
    SpliceLeft(Content(data, ch[..|ch| - 1]), data[ch[|ch| - 1]], at, chunk);
  }

  lemma PatchedLast(data: seq<seq<byte>>, data': seq<seq<byte>>, ch: seq<nat>, size: nat, offset: nat, chunk: seq<byte>)
    requires Sized(data, ch, size) && Sized(data', ch, size) && |ch| > 0 && offset + |chunk| <= size
    requires data'[ch[|ch| - 1]] == Splice(data[ch[|ch| - 1]], offset, chunk)
    requires forall j {:trigger ch[j]} :: 0 <= j < |ch| - 1 ==> data'[ch[j]] == data[ch[j]]
    ensures Times(|ch| - 1, size) + size <= |Content(data, ch)|
    ensures Content(data', ch) == Splice(Content(data, ch), Times(|ch| - 1, size) + offset, chunk)
  {
    var n := |ch| - 1;
    ContentLength(data, ch[..n], size);
    ContentSame(data, data', ch[..n]);
    SpliceRight(Content(data, ch[..n]), data[ch[n]], offset, chunk);
  }

  lemma SpliceLeft(a: seq<byte>, b: seq<byte>, at: nat, d: seq<byte>)
    requires at + |d| <= |a|
    ensures Splice(a + b, at, d) == Splice(a, at, d) + b
  {
  }

  lemma SpliceRight(a: seq<byte>, b: seq<byte>, at: nat, d: seq<byte>)
    requires at + |d| <= |b|
    ensures Splice(a + b, |a| + at, d) == a + Splice(b, at, d)
  {
  }

  lemma Glue(content: seq<byte>, front: seq<byte>, input: seq<byte>, size: nat)
    requires |front| + size <= |content| && size <= |input|
    requires StartsWith(content, front)
    requires forall t :: 0 <= t < size ==> content[|front| + t] == input[t]
    ensures content[..|front| + size] == front + input[..size]
  {
  }

  // ----- division

  lemma DivTimes(n: nat, size: nat)
    requires size > 0
    ensures n == Times(n / size, size) + n % size
  {
    TimesIsProduct(n / size, size);
  }

  lemma {:induction false} DivUnique(q: nat, r: nat, size: nat)
    requires r < size
    ensures (Times(q, size) + r) / size == q && (Times(q, size) + r) % size == r
  {
    var n := Times(q, size) + r;
    DivTimes(n, size);
    if n / size < q { TimesApart(n / size, q, size); }
    if q < n / size { TimesApart(q, n / size, size); }
  }

  // ----- the chunks of a write

  /** Number of clusters a transfer of `size` bytes touches that starts `offset` bytes into one. */
  function ChunkCount(cs: nat, offset: nat, size: nat): nat
    requires cs > 0
  {
    (offset + size) / cs + if (offset + size) % cs != 0 then 1 else 0
  }

  lemma CountIsCeiling(cs: nat, offset: nat, size: nat)
    requires cs > 0
    ensures offset + size <= Times(ChunkCount(cs, offset, size), cs)
    ensures ChunkCount(cs, offset, size) > 0 ==> Times(ChunkCount(cs, offset, size) - 1, cs) < offset + size
  {
    DivTimes(offset + size, cs);
  }

  /** Length of the first chunk as `writeFatFile` computes it. */
  function FirstChunk(cs: nat, offset: nat, size: nat): nat
    requires cs > 0 && offset < cs
  {
    var tail := if size % cs == 0 then cs else size % cs;
    if tail + offset > cs then tail - (tail + offset) % cs else tail
  }

  lemma FirstChunkValue(cs: nat, offset: nat, size: nat)
    requires cs > 0 && offset < cs
    ensures var tail := if size % cs == 0 then cs else size % cs;
            FirstChunk(cs, offset, size) == if tail + offset > cs then cs - offset else tail
  {
    var tail := if size % cs == 0 then cs else size % cs;
    if tail + offset > cs { DivUnique(1, tail + offset - cs, cs); }
  }

  /** The chunks fit their clusters, and when there are two or more they add up to `size`. */
  lemma ChunkPlan(cs: nat, offset: nat, size: nat)
    requires cs > 0 && offset < cs
    ensures var n, first := ChunkCount(cs, offset, size), FirstChunk(cs, offset, size);
            && 0 < first <= cs - offset
            && (n == 0 <==> offset + size == 0)
            && (n == 1 && size > 0 ==> first == size)
            && (n >= 2 ==> first + Times(n - 2, cs) < size <= first + Times(n - 2, cs) + cs)
  {
    FirstChunkValue(cs, offset, size);
    var q, r := size / cs, size % cs;
    DivTimes(size, cs);
    if offset + r < cs {
      DivUnique(q, offset + r, cs);
    } else {
      DivUnique(q + 1, offset + r - cs, cs);
    }
  }

  /** A write cut into chunks: it starts `offset` bytes into cluster `skip` of the file. */
  datatype Plan = Plan(cs: nat, skip: nat, offset: nat, size: nat, count: nat, first: nat)
  {
    ghost predicate Sound() {
      && offset < cs
      && 0 < first <= cs - offset
      && (count == 0 <==> offset + size == 0)
      && (count > 0 ==> Times(count - 1, cs) < offset + size <= Times(count, cs))
      && (count == 1 && size > 0 ==> first == size)
      && (count >= 2 ==> first + Times(count - 2, cs) < size <= first + Times(count - 2, cs) + cs)
    }

    function Position(): nat {
      Times(skip, cs) + offset
    }

    /** Where byte `t` of the input ends up in the file: the first chunk follows the position, every
        later one starts a cluster. */
    function Placed(t: nat): nat {
      if t < first then Position() + t else Times(skip + 1, cs) + (t - first)
    }

    /** The first chunk fills its cluster or is the whole write. */
    predicate Fills() {
      first + offset == cs || size <= first
    }

    /** Bytes written by all chunks: an empty write inside a cluster still writes its first chunk. */
    function Total(): nat {
      if count == 0 then 0 else if size == 0 then first else size
    }

    /** In front of chunk `i`, or behind the last one: the bytes written, and the cluster of the write
        that the chain ends with. */
    function DoneBefore(i: nat): int {
      if i < count then Start(i) else Total()
    }

    function LastBefore(i: nat): nat {
      if i < count || i == 0 then i else i - 1
    }

    /** Bytes written before chunk `i`. */
    function Start(i: nat): nat {
      if i == 0 then 0 else first + Times(i - 1, cs)
    }

    function Length(i: nat): int {
      if i == 0 then first else if i + 1 == count then size - Start(i) else cs
    }

    /** Where in its cluster chunk `i` starts. */
    function Inner(i: nat): nat {
      if i == 0 then offset else 0
    }
  }

  /** The plan of `writeFatFile`. */
  function WritePlan(cs: nat, position: nat, size: nat): Plan
    requires cs > 0
  {
    Plan(cs, position / cs, position % cs, size,
         ChunkCount(cs, position % cs, size), FirstChunk(cs, position % cs, size))
  }

  lemma WritePlanSound(cs: nat, position: nat, size: nat)
    requires cs > 0
    ensures WritePlan(cs, position, size).Sound()
    ensures WritePlan(cs, position, size).Position() == position
  {
    ChunkPlan(cs, position % cs, size);
    CountIsCeiling(cs, position % cs, size);
    DivTimes(position, cs);
  }

  /** The clusters of the plan reach the end of the write, and only the last one contains it. */
  lemma PlanCovers(p: Plan)
    requires p.Sound()
    ensures p.count > 0 ==> Times(p.skip + p.count - 1, p.cs) < p.Position() + p.size <= Times(p.skip + p.count, p.cs)
    ensures p.count == 0 ==> p.Position() + p.size == Times(p.skip, p.cs) <= Times(p.skip + 1, p.cs)
  {
    if p.count > 0 {
      TimesSum(p.skip, p.count, p.cs);
      TimesSum(p.skip, p.count - 1, p.cs);
    }
  }

  /** The sizes and positions for which the first chunk is the one that was meant. */
  predicate WritesInPlace(cs: nat, position: nat, size: nat)
    requires cs > 0
  {
    size <= cs || size % cs == 0 || size % cs + position % cs >= cs
  }

  /** Every byte goes where a write at the position of the plan must put it exactly when the first
      chunk fills its cluster or is the whole write. */
  lemma FillsExactly(p: Plan)
    requires p.Sound()
    ensures (forall t :: 0 <= t < p.size ==> p.Placed(t) == p.Position() + t) <==> p.Fills()
  {
    if !p.Fills() { assert p.Placed(p.first) != p.Position() + p.first; }
  }

  /** For the plan of `writeFatFile` this can be read off position and size. */
  lemma InPlaceExactly(cs: nat, position: nat, size: nat)
    requires cs > 0
    ensures WritePlan(cs, position, size).Fills() <==> WritesInPlace(cs, position, size)
  {
    FirstChunkValue(cs, position % cs, size);
    DivTimes(size, cs);
    if size < cs { DivUnique(0, size, cs); }
  }

  /** For one byte more than a cluster, the first chunk is a single byte. */
  lemma MisplacedPlan(cs: nat)
    requires cs > 1
    ensures WritePlan(cs, 0, cs + 1) == Plan(cs, 0, 0, cs + 1, 2, 1) && !WritePlan(cs, 0, cs + 1).Fills()
  {
    DivUnique(0, 0, cs);
    DivUnique(1, 1, cs);
  }

  /** Every chunk is non-empty, stays in its cluster and is followed by the next one. */
  lemma ChunkBounds(p: Plan, i: nat)
    requires p.Sound() && i < p.count
    ensures 0 < p.Length(i) <= p.cs - p.Inner(i)
    ensures p.Start(i) + p.Length(i) <= p.size || (p.size == 0 && i == 0)
    ensures i + 1 < p.count ==> p.Start(i + 1) == p.Start(i) + p.Length(i)
    ensures i + 1 == p.count && p.size > 0 ==> p.Start(i) + p.Length(i) == p.size
  {
    if i < p.count - 2 { TimesApart(i, p.count - 2, p.cs); }
  }

  lemma PlacedInChunk(p: Plan, i: nat, u: nat)
    requires p.Sound() && i < p.count && u < p.Length(i)
    ensures p.Placed(p.Start(i) + u) == Times(p.skip + i, p.cs) + p.Inner(i) + u
  {
    if i > 0 { TimesSum(p.skip + 1, i - 1, p.cs); }
  }

  lemma EarlierPlaced(p: Plan, i: nat, t: nat)
    requires p.Sound() && i < p.count && t < p.Start(i)
    ensures p.Placed(t) < Times(p.skip + i, p.cs)
  {
    TimesSum(p.skip + 1, i - 1, p.cs);
  }

  ghost predicate StartsWith(s: seq<byte>, front: seq<byte>) {
    |front| <= |s| && forall i {:trigger front[i]} :: 0 <= i < |front| ==> s[i] == front[i]
  }

  /** The file after some bytes of a write: the first bytes are the old ones, and the first `done`
      bytes of the input are where the plan puts them. */
  ghost predicate Progress(p: Plan, input: seq<byte>, kept: seq<byte>, done: nat, data: seq<seq<byte>>, ch: seq<nat>) {
    && Sized(data, ch, p.cs)
    && StartsWith(Content(data, ch), kept)
    && done <= |input|
    && forall t {:trigger input[t]} :: 0 <= t < done ==> PlacedByte(p, Content(data, ch), t, input[t])
  }

  ghost predicate PlacedByte(p: Plan, content: seq<byte>, t: nat, b: byte) {
    p.Placed(t) < |content| && content[p.Placed(t)] == b
  }

  lemma ProgressGrown(p: Plan, input: seq<byte>, kept: seq<byte>, done: nat, data: seq<seq<byte>>, ch: seq<nat>, c: nat)
    requires Progress(p, input, kept, done, data, ch)
    requires c < |data| && |data[c]| == p.cs
    ensures Progress(p, input, kept, done, data, ch + [c])
  {
    ContentAppend(data, ch, c);
  }

  /** Writing chunk `i` at the end of the chain. */
  lemma ProgressChunk(p: Plan, input: seq<byte>, kept: seq<byte>, i: nat, data: seq<seq<byte>>, ch: seq<nat>, data': seq<seq<byte>>)
    requires p.Sound() && i < p.count && |kept| <= p.Position()
    requires |ch| == p.skip + 1 + i && Distinct(ch)
    requires Progress(p, input, kept, p.Start(i), data, ch)
    requires 0 <= p.Length(i) <= p.cs - p.Inner(i) && p.Start(i) + p.Length(i) <= |input|
    requires data' == data[ch[|ch| - 1] := Splice(data[ch[|ch| - 1]], p.Inner(i), input[p.Start(i)..p.Start(i) + p.Length(i)])]
    ensures Progress(p, input, kept, p.Start(i) + p.Length(i), data', ch)
  {
    var before, after := Content(data, ch), Content(data', ch);
    var piece, at := input[p.Start(i)..p.Start(i) + p.Length(i)], Times(p.skip + i, p.cs) + p.Inner(i);
    assert |ch| - 1 == p.skip + i;
    ContentPatched(data, data', ch, p.cs, p.skip + i, p.Inner(i), piece);
    FrontAfterChunk(p, kept, i, before, piece, at, after);
    BytesAfterChunk(p, input, i, before, after);
  }

  lemma FrontAfterChunk(p: Plan, kept: seq<byte>, i: nat, before: seq<byte>, piece: seq<byte>, at: nat, after: seq<byte>)
    requires p.Sound() && |kept| <= p.Position() && StartsWith(before, kept) && at == Times(p.skip + i, p.cs) + p.Inner(i)
    requires at + |piece| <= |before| && after == Splice(before, at, piece)
    ensures StartsWith(after, kept)
  {
    if i > 0 { TimesApart(p.skip, p.skip + i, p.cs); }
  }

  lemma BytesAfterChunk(p: Plan, input: seq<byte>, i: nat, before: seq<byte>, after: seq<byte>)
    requires p.Sound() && i < p.count && 0 <= p.Length(i) && p.Start(i) + p.Length(i) <= |input|
    requires Times(p.skip + i, p.cs) + p.Inner(i) + p.Length(i) <= |before|
    requires after == Splice(before, Times(p.skip + i, p.cs) + p.Inner(i), input[p.Start(i)..p.Start(i) + p.Length(i)])
    requires forall t {:trigger input[t]} :: 0 <= t < p.Start(i) ==> PlacedByte(p, before, t, input[t])
    ensures forall t {:trigger input[t]} :: 0 <= t < p.Start(i) + p.Length(i) ==> PlacedByte(p, after, t, input[t])
  {
    forall t {:trigger input[t]} | 0 <= t < p.Start(i) + p.Length(i) ensures PlacedByte(p, after, t, input[t]) {
      ByteAfterChunk(p, input, i, before, after, t);
    }
  }

  lemma ByteAfterChunk(p: Plan, input: seq<byte>, i: nat, before: seq<byte>, after: seq<byte>, t: nat)
    requires p.Sound() && i < p.count && 0 <= p.Length(i) && p.Start(i) + p.Length(i) <= |input|
    requires Times(p.skip + i, p.cs) + p.Inner(i) + p.Length(i) <= |before|
    requires after == Splice(before, Times(p.skip + i, p.cs) + p.Inner(i), input[p.Start(i)..p.Start(i) + p.Length(i)])
    requires t < p.Start(i) + p.Length(i) && (t < p.Start(i) ==> PlacedByte(p, before, t, input[t]))
    ensures PlacedByte(p, after, t, input[t])
  {
    if t >= p.Start(i) {
      PlacedInChunk(p, i, t - p.Start(i));
    } else {
      EarlierPlaced(p, i, t);
    }
  }

  // ----- the chunks of a read

  /** Reads that are aligned or stay inside one cluster. */
  predicate ReadsInPlace(cs: nat, position: nat, size: nat)
    requires cs > 0
  {
    position % cs == 0 || position % cs + size <= cs
  }
}
