/** The chunks `readFatFile` cuts a read into, for every position and size, and where the bytes it
    copies come from. */
module FatReadPlans {
  import opened Bytes
  import opened FatLayout
  import opened FatContent

  /** A read that starts `offset` bytes into cluster `skip` of the file. It has `count` chunks, and
      `last` is the length of the last of several. */
  datatype ReadPlan = ReadPlan(cs: nat, skip: nat, offset: nat, size: nat, count: nat, last: nat)
  {
    ghost predicate Sound() {
      && offset < cs && last <= cs
      && (count == 0 <==> size == 0)
      && (count > 0 ==> Times(count - 1, cs) < size <= Times(count, cs))
    }

    function Position(): nat { Times(skip, cs) + offset }

    /** Where in its cluster chunk `i` starts, and its length. */
    function Inner(i: nat): nat { if i == 0 then offset else 0 }

    function Length(i: nat): nat { if count == 1 then size else if i + 1 == count then last else cs }

    /** Bytes copied by the first `n` chunks. */
    function Start(n: nat): nat { if n == 0 then 0 else Times(n - 1, cs) + Length(n - 1) }

    /** Bytes copied by the whole read. */
    function Total(): nat { Start(count) }

    /** No chunk leaves the cluster it starts in. */
    ghost predicate StaysIn() {
      forall i: nat {:trigger Length(i)} :: i < count ==> Inner(i) + Length(i) <= cs
    }

    /** Byte `t` of the output belongs to a chunk of cluster `Cluster(t)` of the file, at `Place(t)`. */
    function Cluster(t: nat): nat
      requires cs > 0
    {
      skip + Quotient(t, cs)
    }

    function Place(t: nat): nat
      requires cs > 0
    {
      Inner(Quotient(t, cs)) + (t - Times(Quotient(t, cs), cs))
    }

    /** That is where a read at the position must take it from. */
    predicate Straight(t: nat)
      requires cs > 0
    {
      Times(Cluster(t), cs) + Place(t) == Position() + t
    }
  }

  /** The plan of `readFatFile`. */
  function PlanRead(cs: nat, position: nat, size: nat): ReadPlan
    requires cs > 0
  {
    ReadPlan(cs, position / cs, position % cs, size, ChunkCount(cs, 0, size),
             if (position + size) % cs == 0 then cs else size % cs)
  }

  lemma PlanReadSound(cs: nat, position: nat, size: nat)
    requires cs > 0
    ensures PlanRead(cs, position, size).Sound() && PlanRead(cs, position, size).Position() == position
  {
    DivTimes(position, cs);
    CountIsCeiling(cs, 0, size);
    DivTimes(size, cs);
    if size < cs { DivUnique(0, size, cs); }
  }

  /** The number of bytes that are copied. A size that is a multiple of the cluster size loses its last
      cluster when the position is not one, and another one is rounded up to whole clusters when the
      read ends at a cluster border. */
  lemma TotalOfRead(cs: nat, position: nat, size: nat)
    requires cs > 0
    ensures PlanRead(cs, position, size).Total() ==
            if size <= cs then size
            else if size % cs == 0 then if position % cs == 0 then size else size - cs
            else if (position + size) % cs == 0 then size - size % cs + cs else size
  {
    var p, q, r := PlanRead(cs, position, size), size / cs, size % cs;
    DivTimes(size, cs);
    DivTimes(position, cs);
    if size < cs { DivUnique(0, size, cs); }
    if size == cs { DivUnique(1, 0, cs); }
    if r == 0 {
      TimesSum(position / cs, q, cs);
      DivUnique(position / cs + q, position % cs, cs);
    }
  }

  /** An aligned read, or one inside one cluster, copies as many bytes as were asked for, and no chunk
      leaves its cluster. */
  lemma InPlaceStays(p: ReadPlan, cs: nat, position: nat, size: nat)
    requires cs > 0 && p == PlanRead(cs, position, size) && ReadsInPlace(cs, position, size)
    ensures p.Sound() && p.StaysIn() && p.Total() == size
  {
    PlanReadSound(cs, position, size);
    TotalOfRead(cs, position, size);
    DivTimes(size, cs);
    if position % cs == 0 { AlignedEnd(cs, position, size); }
    forall i: nat | i < p.count ensures p.Inner(i) + p.Length(i) <= cs {
      if p.offset > 0 { OneChunk(p); }
    }
  }

  lemma AlignedEnd(cs: nat, position: nat, size: nat)
    requires cs > 0 && position % cs == 0
    ensures (position + size) % cs == size % cs
  {
    DivTimes(position, cs);
    DivTimes(size, cs);
    TimesSum(position / cs, size / cs, cs);
    DivUnique(position / cs + size / cs, size % cs, cs);
  }

  lemma OneChunk(p: ReadPlan)
    requires p.Sound() && p.offset + p.size <= p.cs
    ensures p.count <= 1
  {
  }

  // ----- chunks end to end

  /** The first `n` chunks, end to end, and their length. */
  function Joined(chunks: seq<seq<byte>>, n: nat): seq<byte>
    requires n <= |chunks|
    decreases n
  {
    if n == 0 then [] else Joined(chunks, n - 1) + chunks[n - 1]
  }

  function Lengths(chunks: seq<seq<byte>>, n: nat): nat
    requires n <= |chunks|
    decreases n
  {
    if n == 0 then 0 else Lengths(chunks, n - 1) + |chunks[n - 1]|
  }

  ghost predicate SameByte(s: seq<byte>, i: nat, t: seq<byte>, j: nat) {
    i < |s| && j < |t| && s[i] == t[j]
  }

  lemma {:induction false} JoinedLength(chunks: seq<seq<byte>>, n: nat)
    requires n <= |chunks|
    ensures |Joined(chunks, n)| == Lengths(chunks, n)
    decreases n
  {
    if n > 0 { JoinedLength(chunks, n - 1); }
  }

  /** Byte `k` of chunk `i` in the output. */
  lemma {:induction false} JoinedByte(chunks: seq<seq<byte>>, n: nat, i: nat, k: nat, to: nat)
    requires i < n <= |chunks| && k < |chunks[i]| && to == Lengths(chunks, i) + k
    ensures SameByte(Joined(chunks, n), to, chunks[i], k)
    decreases n
  {
    var m := n - 1;
    if i < m {
      JoinedByte(chunks, m, i, k, to);
    } else {
      JoinedLength(chunks, m);
    }
  }

  /** Chunk `i` is the slice of `content` behind the earlier ones. */
  ghost predicate Follows(chunks: seq<seq<byte>>, content: seq<byte>, from: nat, i: nat) {
    && i < |chunks| && from + Lengths(chunks, i) + |chunks[i]| <= |content|
    && chunks[i] == content[from + Lengths(chunks, i)..from + Lengths(chunks, i) + |chunks[i]|]
  }

  /** Chunks that are consecutive slices of `content` join to a slice of it. */
  lemma {:induction false} JoinedSlices(chunks: seq<seq<byte>>, n: nat, content: seq<byte>, from: nat)
    requires n <= |chunks| && from <= |content|
    requires forall i: nat {:trigger Follows(chunks, content, from, i)} :: i < n ==> Follows(chunks, content, from, i)
    ensures from + Lengths(chunks, n) <= |content| && Joined(chunks, n) == content[from..from + Lengths(chunks, n)]
    decreases n
  {
    if n > 0 {
      var m := n - 1;
      JoinedSlices(chunks, m, content, from);
      assert Follows(chunks, content, from, m);
      OneMore(Joined(chunks, m), chunks[m], content, from, from + Lengths(chunks, m), from + Lengths(chunks, n));
    }
  }

  lemma OneMore(a: seq<byte>, b: seq<byte>, s: seq<byte>, from: nat, mid: nat, end: nat)
    requires from <= mid <= end <= |s| && a == s[from..mid] && b == s[mid..end]
    ensures a + b == s[from..end]
  {
  }

  // ----- the chunks of a read

  /** `n` bytes from address `at` on. */
  datatype Extent = Extent(at: nat, n: nat)

  function SliceAt(volume: seq<byte>, e: Extent): seq<byte> {
    if e.at + e.n <= |volume| then volume[e.at..e.at + e.n] else []
  }

  ghost predicate HoldsSlice(volume: seq<byte>, e: Extent, content: seq<byte>, from: nat) {
    from + e.n <= |content| && SliceAt(volume, e) == content[from..from + e.n]
  }

  /** The clusters of a chain exist. */
  ghost predicate OnVolume(l: Layout, ch: seq<nat>) {
    forall i {:trigger ch[i]} :: 0 <= i < |ch| ==> l.InRange(ch[i])
  }

  /** Where on the volume chunk `i` lies. A chunk that leaves its cluster goes on in the next cluster of
      the volume, not in the next one of the file. */
  function ChunkExtent(l: Layout, p: ReadPlan, ch: seq<nat>, i: nat): Extent
    requires p.skip + i < |ch| && OnVolume(l, ch)
  {
    assert l.InRange(ch[p.skip + i]);
    Extent(l.DataAddress(ch[p.skip + i]) + p.Inner(i), p.Length(i))
  }

  /** The chunks that the rest of the chain holds. */
  function ChunksHeld(p: ReadPlan, ch: seq<nat>): nat {
    if p.skip + p.count <= |ch| then p.count else if p.skip <= |ch| then |ch| - p.skip else 0
  }

  /** Their bytes. */
  function Chunks(l: Layout, volume: seq<byte>, p: ReadPlan, ch: seq<nat>): (chunks: seq<seq<byte>>)
    requires OnVolume(l, ch)
    ensures |chunks| == ChunksHeld(p, ch)
  {
    seq(ChunksHeld(p, ch), i requires 0 <= i < ChunksHeld(p, ch) => SliceAt(volume, ChunkExtent(l, p, ch, i)))
  }

  ghost predicate AreChunks(l: Layout, volume: seq<byte>, p: ReadPlan, ch: seq<nat>, chunks: seq<seq<byte>>) {
    OnVolume(l, ch) && chunks == Chunks(l, volume, p, ch)
  }

  lemma ChunkIs(l: Layout, volume: seq<byte>, p: ReadPlan, ch: seq<nat>, chunks: seq<seq<byte>>, i: nat)
    requires AreChunks(l, volume, p, ch, chunks) && i < |chunks|
    ensures i < p.count && p.skip + i < |ch| && chunks[i] == SliceAt(volume, ChunkExtent(l, p, ch, i))
  {
  }

  /** Every chunk has its length if the first one lies on the volume. */
  lemma ChunkLength(l: Layout, volume: seq<byte>, p: ReadPlan, ch: seq<nat>, chunks: seq<seq<byte>>, i: nat)
    requires l.Fits(|volume|) && l.clusterSize == p.cs && p.Sound() && AreChunks(l, volume, p, ch, chunks)
    requires FirstOn(l, |volume|, p, ch) && i < |chunks|
    ensures |chunks[i]| == p.Length(i)
  {
    ChunkIs(l, volume, p, ch, chunks, i);
    ChunkOn(l, |volume|, p, ch, i);
  }

  lemma {:induction false} ChunkStart(l: Layout, volume: seq<byte>, p: ReadPlan, ch: seq<nat>, chunks: seq<seq<byte>>, n: nat)
    requires l.Fits(|volume|) && l.clusterSize == p.cs && p.Sound() && AreChunks(l, volume, p, ch, chunks)
    requires FirstOn(l, |volume|, p, ch) && n <= |chunks|
    ensures Lengths(chunks, n) == p.Start(n)
    decreases n
  {
    if n > 0 {
      var m := n - 1;
      ChunkStart(l, volume, p, ch, chunks, m);
      ChunkLength(l, volume, p, ch, chunks, m);
      ChunkIs(l, volume, p, ch, chunks, m);
      StartMore(p, m, n);
    }
  }

  lemma StartMore(p: ReadPlan, i: nat, j: nat)
    requires p.Sound() && i < p.count && j == i + 1
    ensures p.Start(j) == p.Start(i) + p.Length(i) && (j < p.count ==> p.Start(j) == Times(j, p.cs))
  {
  }

  /** The first chunk, which alone may leave its cluster, does not leave the volume. */
  ghost predicate FirstOn(l: Layout, volumeSize: nat, p: ReadPlan, ch: seq<nat>)
    requires OnVolume(l, ch)
  {
    p.count > 0 && p.skip < |ch| ==> ChunkExtent(l, p, ch, 0).at + p.Length(0) <= volumeSize
  }

  /** Every chunk lies on the volume if the first one does. */
  lemma ChunkOn(l: Layout, volumeSize: nat, p: ReadPlan, ch: seq<nat>, i: nat)
    requires l.Fits(volumeSize) && l.clusterSize == p.cs && p.Sound() && OnVolume(l, ch)
    requires i < p.count && p.skip + i < |ch| && FirstOn(l, volumeSize, p, ch)
    ensures ChunkExtent(l, p, ch, i).at + p.Length(i) <= volumeSize
  {
    assert l.InRange(ch[p.skip + i]);
    NoWrap(l, volumeSize, ch[p.skip + i]);
  }

  // ----- reads that are right

  /** The clusters of a chain on the volume are the pieces of `content`. */
  ghost predicate Pieces(l: Layout, volume: seq<byte>, ch: seq<nat>, content: seq<byte>)
    requires OnVolume(l, ch)
  {
    forall i: nat {:trigger ch[i]} :: i < |ch| ==> PieceAt(l, volume, ch[i], content, Times(i, l.clusterSize))
  }

  ghost predicate PieceAt(l: Layout, volume: seq<byte>, c: nat, content: seq<byte>, at: nat)
    requires l.InRange(c)
  {
    HoldsSlice(volume, Extent(l.DataAddress(c), l.clusterSize), content, at) && l.DataAddress(c) + l.clusterSize <= |volume|
  }

  /** Chunks that stay in their clusters hold slices of the file. */
  lemma ChunkIsSlice(l: Layout, volume: seq<byte>, p: ReadPlan, ch: seq<nat>, content: seq<byte>, i: nat)
    requires OnVolume(l, ch) && Pieces(l, volume, ch, content) && l.clusterSize == p.cs
    requires p.Sound() && p.StaysIn() && i < p.count && p.skip + i < |ch|
    ensures HoldsSlice(volume, ChunkExtent(l, p, ch, i), content, p.Position() + p.Start(i))
  {
    RightChunk(p, i);
    assert l.InRange(ch[p.skip + i]);
    var own, at := l.DataAddress(ch[p.skip + i]), Times(p.skip + i, p.cs);
    assert PieceAt(l, volume, ch[p.skip + i], content, at);
    SliceInside(volume, own, content, at, p.cs, p.Inner(i), ChunkExtent(l, p, ch, i), p.Position() + p.Start(i));
  }

  lemma SliceInside(volume: seq<byte>, own: nat, content: seq<byte>, at: nat, size: nat, inner: nat, e: Extent, from: nat)
    requires own + size <= |volume| && HoldsSlice(volume, Extent(own, size), content, at)
    requires inner + e.n <= size && e.at == own + inner && from == at + inner
    ensures HoldsSlice(volume, e, content, from)
  {
    SliceOfSlice(content, at, inner, e.n, content[at..at + size]);
    SliceOfSlice(volume, own, inner, e.n, volume[own..own + size]);
  }

  lemma RightChunk(p: ReadPlan, i: nat)
    requires p.Sound() && p.StaysIn() && i < p.count
    ensures p.Inner(i) + p.Length(i) <= p.cs && Times(p.skip + i, p.cs) + p.Inner(i) == p.Position() + p.Start(i)
  {
    TimesSum(p.skip, i, p.cs);
    if i > 0 {
      assert p.Length(0) == p.cs && p.Inner(0) + p.Length(0) <= p.cs;
      StartMore(p, i - 1, i);
    }
  }

  lemma ChunkFollows(l: Layout, volume: seq<byte>, p: ReadPlan, ch: seq<nat>, chunks: seq<seq<byte>>, content: seq<byte>, i: nat)
    requires l.Fits(|volume|) && l.clusterSize == p.cs && p.Sound() && AreChunks(l, volume, p, ch, chunks) && FirstOn(l, |volume|, p, ch)
    requires Pieces(l, volume, ch, content) && p.StaysIn() && i < |chunks|
    ensures Follows(chunks, content, p.Position(), i)
  {
    ChunkIs(l, volume, p, ch, chunks, i);
    ChunkLength(l, volume, p, ch, chunks, i);
    ChunkStart(l, volume, p, ch, chunks, i);
    ChunkIsSlice(l, volume, p, ch, content, i);
  }

  /** A read whose chunks stay in their clusters copies a slice of the file. */
  lemma RightRead(l: Layout, volume: seq<byte>, p: ReadPlan, ch: seq<nat>, chunks: seq<seq<byte>>, content: seq<byte>, n: nat)
    requires l.Fits(|volume|) && l.clusterSize == p.cs && p.Sound() && AreChunks(l, volume, p, ch, chunks) && FirstOn(l, |volume|, p, ch)
    requires Pieces(l, volume, ch, content) && p.StaysIn() && n <= |chunks| && p.Position() <= |content|
    ensures p.Position() + p.Start(n) <= |content|
    ensures Joined(chunks, n) == content[p.Position()..p.Position() + p.Start(n)]
  {
    forall i: nat | i < n ensures Follows(chunks, content, p.Position(), i) {
      ChunkFollows(l, volume, p, ch, chunks, content, i);
    }
    JoinedSlices(chunks, n, content, p.Position());
    ChunkStart(l, volume, p, ch, chunks, n);
  }

  // ----- reads that are not

  /** Byte `k` of chunk `i` in the output. */
  lemma ChunkByte(l: Layout, volume: seq<byte>, p: ReadPlan, ch: seq<nat>, chunks: seq<seq<byte>>, i: nat, k: nat, to: nat, from: nat)
    requires l.Fits(|volume|) && l.clusterSize == p.cs && p.Sound() && AreChunks(l, volume, p, ch, chunks)
    requires i < |chunks| == p.count && FirstOn(l, |volume|, p, ch) && k < p.Length(i)
    requires to == p.Start(i) + k && p.skip + i < |ch| && from == ChunkExtent(l, p, ch, i).at + k
    ensures SameByte(Joined(chunks, p.count), to, volume, from)
  {
    ChunkIs(l, volume, p, ch, chunks, i);
    ChunkOn(l, |volume|, p, ch, i);
    ChunkLength(l, volume, p, ch, chunks, i);
    ChunkStart(l, volume, p, ch, chunks, i);
    JoinedByte(chunks, p.count, i, k, to);
    ByteOfSlice(volume, ChunkExtent(l, p, ch, i), k, from);
  }

  lemma ByteOfSlice(volume: seq<byte>, e: Extent, k: nat, from: nat)
    requires e.at + e.n <= |volume| && k < e.n && from == e.at + k
    ensures SameByte(SliceAt(volume, e), k, volume, from)
  {
  }

  /** An unaligned read across a cluster border: behind the border comes the next cluster of the
      volume. */
  lemma ReadElsewhere(l: Layout, volume: seq<byte>, p: ReadPlan, ch: seq<nat>, chunks: seq<seq<byte>>)
    requires l.Fits(|volume|) && l.clusterSize == p.cs && p.Sound() && AreChunks(l, volume, p, ch, chunks)
    requires p.count > 0 && p.skip + p.count <= |ch| && FirstOn(l, |volume|, p, ch) && p.offset + p.Length(0) > p.cs
    ensures l.InRange(ch[p.skip])
    ensures SameByte(Joined(chunks, p.count), p.cs - p.offset, volume, l.DataAddress(ch[p.skip] + 1))
  {
    assert l.InRange(ch[p.skip]);
    var from := l.DataAddress(ch[p.skip] + 1);
    NextAddress(l, ch[p.skip]);
    ChunkByte(l, volume, p, ch, chunks, 0, p.cs - p.offset, p.cs - p.offset, from);
  }

  /** Its second chunk starts at the beginning of the next cluster of the file, not at the offset there
      that byte `cs` of the output should come from. */
  lemma SecondChunk(l: Layout, volume: seq<byte>, p: ReadPlan, ch: seq<nat>, chunks: seq<seq<byte>>)
    requires l.Fits(|volume|) && l.clusterSize == p.cs && p.Sound() && AreChunks(l, volume, p, ch, chunks)
    requires p.count > 1 && p.skip + p.count <= |ch| && FirstOn(l, |volume|, p, ch) && p.Length(1) > 0
    ensures l.InRange(ch[p.skip + 1])
    ensures SameByte(Joined(chunks, p.count), p.cs, volume, l.DataAddress(ch[p.skip + 1]))
    ensures p.Straight(p.cs) <==> p.offset == 0
  {
    assert l.InRange(ch[p.skip + 1]);
    SecondStraight(p);
    SecondStart(p);
    ChunkByte(l, volume, p, ch, chunks, 1, 0, p.cs, l.DataAddress(ch[p.skip + 1]));
  }

  lemma SecondStart(p: ReadPlan)
    requires p.Sound() && p.count > 1
    ensures p.Start(1) == p.cs && p.Inner(1) == 0
  {
  }

  lemma NextAddress(l: Layout, c: nat)
    requires c >= 2
    ensures l.DataAddress(c + 1) == l.DataAddress(c) + l.clusterSize
  {
  }

  lemma SecondStraight(p: ReadPlan)
    requires p.Sound()
    ensures p.Straight(p.cs) <==> p.offset == 0
  {
    TimesIsProduct(1, p.cs);
  }
}
