/** Which reads of `readFatFile` copy what was asked for: the exact condition on the call, the chain and
    the size of the volume. */
module FatReadsExact {
  import opened Bytes
  import opened FatLayout
  import opened FatContent
  import opened FatDevices
  import opened FatReadPlans
  import opened FatReads

  /** A read that starts in a file or at its end. */
  datatype Request = Request(l: Layout, volumeSize: nat, ch: seq<nat>, position: nat, size: nat)
  {
    ghost predicate Ok() {
      l.Fits(volumeSize) && OnVolume(l, ch) && position <= FileSize()
    }

    function FileSize(): nat { Times(|ch|, l.clusterSize) }

    function Cut(): ReadPlan
      requires l.clusterSize > 0
    {
      PlanRead(l.clusterSize, position, size)
    }

    /** The read crosses one cluster border, to a cluster that follows on the volume as well. */
    predicate GoesOnStraight() {
      var next := if l.clusterSize == 0 then 0 else position / l.clusterSize + 1;
      size <= l.clusterSize && 0 < next < |ch| && ch[next] == ch[next - 1] + 1
    }

    /** Its chunks do not all fit into the file, and its first one does not run off the volume. */
    ghost predicate RunsOut()
      requires Ok()
    {
      Cut().skip + Cut().count > |ch| && FirstOn(l, volumeSize, Cut(), ch)
    }

    /** It is aligned, stays inside one cluster, goes on in a cluster that follows on the volume as well,
        or has more chunks than the file has clusters left. */
    ghost predicate Suits()
      requires Ok()
    {
      ReadsInPlace(l.clusterSize, position, size) || GoesOnStraight() || RunsOut()
    }

    /** It meets no failure on a volume with these bytes, on which the file is `content`. */
    ghost predicate Ends(volume: seq<byte>, content: seq<byte>, before: seq<byte>, out: seq<byte>, r: int)
      requires Ok()
    {
      && |volume| == volumeSize && Pieces(l, volume, ch, content) && |content| == FileSize()
      && size <= |before| && Cut().Total() <= |before|
      && Outcome(l, volume, Cut(), ch, before, out, r)
    }

    /** Whatever the volume holds, it copies that slice of the file, or fails if there is none. */
    ghost predicate Right()
      requires Ok()
    {
      forall volume, content, before, out, r :: Ends(volume, content, before, out, r) ==>
        SliceRead(content, position, size, before, out, r)
    }

    ghost predicate GoesWrong(volume: seq<byte>, content: seq<byte>, before: seq<byte>, out: seq<byte>, r: int)
      requires Ok()
    {
      Ends(volume, content, before, out, r) && !SliceRead(content, position, size, before, out, r)
    }
  }

  /** Exactly the reads that suit the chain are right. */
  lemma ReadsExactly(q: Request)
    requires q.Ok()
    ensures q.Right() <==> q.Suits()
  {
    StartsInChain(q);
    if q.Suits() {
      forall volume, content, before, out, r | q.Ends(volume, content, before, out, r)
        ensures SliceRead(content, q.position, q.size, before, out, r)
      {
        ReadIsRight(q, volume, content, before, out, r);
      }
    } else {
      var volume, content, before, out, r := WrongRead(q);
    }
  }

  lemma StartsInChain(q: Request)
    requires q.Ok()
    ensures q.Cut().Sound() && q.Cut().Position() == q.position && q.Cut().skip <= |q.ch|
    ensures q.Cut().skip == |q.ch| ==> q.Cut().offset == 0
  {
    PlanReadSound(q.l.clusterSize, q.position, q.size);
    if |q.ch| < q.Cut().skip { TimesApart(|q.ch|, q.Cut().skip, q.l.clusterSize); }
  }

  // ----- right reads

  lemma ReadIsRight(q: Request, volume: seq<byte>, content: seq<byte>, before: seq<byte>, out: seq<byte>, r: int)
    requires q.Ok() && q.Ends(volume, content, before, out, r)
    requires q.Suits()
    ensures SliceRead(content, q.position, q.size, before, out, r)
  {
    var p := q.Cut();
    StartsInChain(q);
    if q.RunsOut() {
      RunOut(q, p, content, before, volume, out, r);
    } else if ReadsInPlace(q.l.clusterSize, q.position, q.size) {
      InPlaceRead(q, p, content, before, volume, out, r);
    } else {
      StraightRead(q.l, volume, p, q.ch, content, before, out, r);
    }
  }

  lemma InPlaceRead(q: Request, p: ReadPlan, content: seq<byte>, before: seq<byte>, volume: seq<byte>, out: seq<byte>, r: int)
    requires q.Ok() && ReadsInPlace(q.l.clusterSize, q.position, q.size) && q.Ends(volume, content, before, out, r)
    requires p == q.Cut() && p.Position() == q.position
    ensures SliceRead(content, q.position, q.size, before, out, r)
  {
    InPlaceStays(p, q.l.clusterSize, q.position, q.size);
    SliceOutcome(q.l, volume, p, q.ch, content, before, out, r);
  }

  lemma RunOut(q: Request, p: ReadPlan, content: seq<byte>, before: seq<byte>, volume: seq<byte>, out: seq<byte>, r: int)
    requires q.Ok() && q.RunsOut() && p == q.Cut() && p.Sound() && p.Position() == q.position && p.skip <= |q.ch|
    requires |volume| == q.volumeSize && |content| == q.FileSize() && q.size <= |before|
    requires Outcome(q.l, volume, p, q.ch, before, out, r)
    ensures SliceRead(content, q.position, q.size, before, out, r)
  {
    ShortOutcome(q.l, volume, p, q.ch, before, out, r);
    BehindTheFile(p, |q.ch|);
  }

  /** A read with more chunks than the file has clusters left runs past its end. */
  lemma BehindTheFile(p: ReadPlan, clusters: nat)
    requires p.Sound() && p.skip <= clusters < p.skip + p.count
    ensures p.Position() + p.size > Times(clusters, p.cs)
  {
    TimesSum(p.skip, clusters - p.skip, p.cs);
    if clusters - p.skip < p.count - 1 { TimesApart(clusters - p.skip, p.count - 1, p.cs); }
  }

  /** One chunk over the border between two clusters that follow each other. */
  lemma StraightRead(l: Layout, volume: seq<byte>, p: ReadPlan, ch: seq<nat>, content: seq<byte>, before: seq<byte>, out: seq<byte>, r: int)
    requires l.Fits(|volume|) && l.clusterSize == p.cs && OnVolume(l, ch) && Pieces(l, volume, ch, content)
    requires p.Sound() && 0 < p.size <= p.cs && p.skip + 1 < |ch| && ch[p.skip + 1] == ch[p.skip] + 1
    requires p.Position() <= |content| && p.size <= |before| && Outcome(l, volume, p, ch, before, out, r)
    ensures SliceRead(content, p.Position(), p.size, before, out, r)
  {
    OneChunkOnly(p);
    assert l.InRange(ch[p.skip]);
    var own := l.DataAddress(ch[p.skip]);
    StraightFound(l, volume, p, ch, Chunks(l, volume, p, ch), content, own, Extent(own + p.offset, p.size), p.Position());
    StraightChunkOn(l, |volume|, p, ch);
    FoundRead(l, volume, p, ch, Chunks(l, volume, p, ch), content, before, out, r);
  }

  lemma StraightFound(l: Layout, volume: seq<byte>, p: ReadPlan, ch: seq<nat>, chunks: seq<seq<byte>>, content: seq<byte>,
                      own: nat, e: Extent, from: nat)
    requires AreChunks(l, volume, p, ch, chunks) && Pieces(l, volume, ch, content) && l.clusterSize == p.cs
    requires p.Sound() && p.count == 1 && p.size <= p.cs && p.skip + 1 < |ch| && 2 <= ch[p.skip] && ch[p.skip + 1] == ch[p.skip] + 1
    requires own == l.DataAddress(ch[p.skip]) && e == Extent(own + p.offset, p.size) && from == p.Position()
    ensures e.at + e.n <= |volume| && |chunks| == 1 && from + p.size <= |content| && Joined(chunks, 1) == content[from..from + p.size]
  {
    StraightHeld(l, volume, p, ch, content, own, Times(p.skip, p.cs), e, from);
    OneChunkJoined(l, volume, p, ch, chunks, e);
  }

  /** Both clusters together hold one slice of the file. */
  lemma StraightHeld(l: Layout, volume: seq<byte>, p: ReadPlan, ch: seq<nat>, content: seq<byte>, own: nat, at: nat,
                     e: Extent, from: nat)
    requires OnVolume(l, ch) && Pieces(l, volume, ch, content) && l.clusterSize == p.cs
    requires p.Sound() && p.size <= p.cs && p.skip + 1 < |ch| && 2 <= ch[p.skip] && ch[p.skip + 1] == ch[p.skip] + 1
    requires own == l.DataAddress(ch[p.skip]) && at == Times(p.skip, p.cs)
    requires e == Extent(own + p.offset, p.size) && from == at + p.offset
    ensures HoldsSlice(volume, e, content, from) && e.at + e.n <= |volume|
  {
    BothPieces(l, volume, ch, content, p.skip, own, at);
    SliceInside(volume, own, content, at, 2 * p.cs, p.offset, e, from);
  }

  lemma BothPieces(l: Layout, volume: seq<byte>, ch: seq<nat>, content: seq<byte>, i: nat, own: nat, at: nat)
    requires OnVolume(l, ch) && Pieces(l, volume, ch, content) && i + 1 < |ch| && ch[i] >= 2 && ch[i + 1] == ch[i] + 1
    requires own == l.DataAddress(ch[i]) && at == Times(i, l.clusterSize)
    ensures HoldsSlice(volume, Extent(own, 2 * l.clusterSize), content, at) && own + 2 * l.clusterSize <= |volume|
  {
    PieceFrom(l, volume, ch, content, i, own, at);
    NextPiece(l, volume, ch, content, i, own, at);
    TwoPieces(volume, own, content, at, l.clusterSize);
  }

  lemma NextPiece(l: Layout, volume: seq<byte>, ch: seq<nat>, content: seq<byte>, i: nat, own: nat, at: nat)
    requires OnVolume(l, ch) && Pieces(l, volume, ch, content) && i + 1 < |ch| && ch[i] >= 2 && ch[i + 1] == ch[i] + 1
    requires own == l.DataAddress(ch[i]) && at == Times(i, l.clusterSize)
    ensures HoldsSlice(volume, Extent(own + l.clusterSize, l.clusterSize), content, at + l.clusterSize)
    ensures own + 2 * l.clusterSize <= |volume|
  {
    PieceFrom(l, volume, ch, content, i + 1, own + l.clusterSize, at + l.clusterSize);
  }

  lemma PieceFrom(l: Layout, volume: seq<byte>, ch: seq<nat>, content: seq<byte>, i: nat, own: nat, at: nat)
    requires OnVolume(l, ch) && Pieces(l, volume, ch, content) && i < |ch| && ch[i] >= 2
    requires own == l.DataAddress(ch[i]) && at == Times(i, l.clusterSize)
    ensures HoldsSlice(volume, Extent(own, l.clusterSize), content, at) && own + l.clusterSize <= |volume|
  {
    assert l.InRange(ch[i]) && PieceAt(l, volume, ch[i], content, at);
  }

  lemma OneChunkOnly(p: ReadPlan)
    requires p.Sound() && 0 < p.size <= p.cs
    ensures p.count == 1
  {
  }

  lemma TwoPieces(volume: seq<byte>, own: nat, content: seq<byte>, at: nat, size: nat)
    requires HoldsSlice(volume, Extent(own, size), content, at) && HoldsSlice(volume, Extent(own + size, size), content, at + size)
    requires own + 2 * size <= |volume|
    ensures HoldsSlice(volume, Extent(own, 2 * size), content, at)
  {
    TwoSlices(volume, own, own + size, own + 2 * size, content, at, at + size, at + 2 * size);
  }

  lemma TwoSlices(s: seq<byte>, a: nat, b: nat, c: nat, t: seq<byte>, a': nat, b': nat, c': nat)
    requires a <= b <= c <= |s| && a' <= b' <= c' <= |t| && s[a..b] == t[a'..b'] && s[b..c] == t[b'..c']
    ensures s[a..c] == t[a'..c']
  {
    assert s[a..c] == s[a..b] + s[b..c];
    assert t[a'..c'] == t[a'..b'] + t[b'..c'];
  }

  lemma OneChunkJoined(l: Layout, volume: seq<byte>, p: ReadPlan, ch: seq<nat>, chunks: seq<seq<byte>>, e: Extent)
    requires AreChunks(l, volume, p, ch, chunks) && p.count == 1 && p.skip < |ch| && ch[p.skip] >= 2
    requires e == Extent(l.DataAddress(ch[p.skip]) + p.offset, p.size)
    ensures |chunks| == 1 && Joined(chunks, 1) == SliceAt(volume, e)
  {
    ChunkIs(l, volume, p, ch, chunks, 0);
    assert Joined(chunks, 1) == Joined(chunks, 0) + chunks[0];
  }

  lemma StraightChunkOn(l: Layout, volumeSize: nat, p: ReadPlan, ch: seq<nat>)
    requires OnVolume(l, ch) && p.count == 1 && p.skip < |ch| && ch[p.skip] >= 2
    requires l.DataAddress(ch[p.skip]) + p.offset + p.size <= volumeSize
    ensures FirstOn(l, volumeSize, p, ch)
  {
  }

  /** On a mounted volume. */
  lemma FileSlice(d: FatDevice, q: Request, before: seq<byte>, out: seq<byte>, r: int)
    requires d.Valid() && q.l == d.layout && q.volumeSize == |d.Volume()| && q.Ok() && q.Suits()
    requires (forall i :: 0 <= i < |q.ch| ==> q.ch[i] < |d.data|) && q.size <= |before| && q.Cut().Total() <= |before|
    requires Outcome(d.layout, d.Volume(), q.Cut(), q.ch, before, out, r)
    ensures q.position <= |Content(d.data, q.ch)| && SliceRead(Content(d.data, q.ch), q.position, q.size, before, out, r)
  {
    FilePieces(d.layout, d.Volume(), d.data, q.ch);
    ContentLength(d.data, q.ch, d.layout.clusterSize);
    ReadIsRight(q, d.Volume(), Content(d.data, q.ch), before, out, r);
  }

  // ----- wrong reads

  /** A volume of zeros but for one byte. */
  function OneByte(n: nat, at: nat): (volume: seq<byte>)
    ensures |volume| == n
  {
    seq(n, i => if i == at then 1 else 0)
  }

  function Zeros(n: nat): (s: seq<byte>)
    ensures |s| == n
  {
    seq(n, i => 0)
  }

  /** Where a read should find the byte that it does not find: at the border of its first cluster, or,
      when it has several chunks, where its second one starts. */
  function MissedIndex(p: ReadPlan): nat {
    if p.count == 1 && p.offset <= p.cs then p.cs - p.offset else p.cs
  }

  function MissedAddress(l: Layout, p: ReadPlan, ch: seq<nat>): nat
    requires OnVolume(l, ch)
  {
    if p.skip + 1 < |ch| then
      assert l.InRange(ch[p.skip + 1]);
      l.DataAddress(ch[p.skip + 1]) + if p.count == 1 then 0 else p.offset
    else 0
  }

  /** The read goes on in the chain behind its first cluster, over a border that is not straight. */
  ghost predicate Crosses(l: Layout, volumeSize: nat, p: ReadPlan, ch: seq<nat>) {
    && l.Fits(volumeSize) && l.clusterSize == p.cs && p.Sound() && OnVolume(l, ch) && FirstOn(l, volumeSize, p, ch)
    && p.skip + 1 < |ch| && p.skip + p.count <= |ch| && p.count > 0 && p.offset > 0 && p.offset + p.size > p.cs
    && (p.count == 1 ==> ch[p.skip + 1] != ch[p.skip] + 1)
  }

  lemma ItCrosses(q: Request)
    requires q.Ok() && q.position + q.size <= q.FileSize() && FirstOn(q.l, q.volumeSize, q.Cut(), q.ch)
    requires !q.Suits()
    ensures Crosses(q.l, q.volumeSize, q.Cut(), q.ch)
  {
    StartsInChain(q);
    var p := q.Cut();
    assert Times(p.skip + 1, p.cs) == Times(p.skip, p.cs) + p.cs;
  }

  /** The byte that should be found there lies at the address. */
  lemma ShouldFind(l: Layout, volume: seq<byte>, p: ReadPlan, ch: seq<nat>, content: seq<byte>, at: nat)
    requires Crosses(l, |volume|, p, ch) && Pieces(l, volume, ch, content) && at == p.Position() + MissedIndex(p)
    ensures SameByte(content, at, volume, MissedAddress(l, p, ch))
  {
    var i, u := p.skip + 1, if p.count == 1 then 0 else p.offset;
    assert l.InRange(ch[i]) && PieceAt(l, volume, ch[i], content, Times(i, l.clusterSize));
    HeldByte(volume, Extent(l.DataAddress(ch[i]), p.cs), content, Times(i, p.cs), u, at, MissedAddress(l, p, ch));
  }

  lemma HeldByte(volume: seq<byte>, e: Extent, content: seq<byte>, from: nat, u: nat, at: nat, address: nat)
    requires HoldsSlice(volume, e, content, from) && u < e.n && e.at + e.n <= |volume| && at == from + u && address == e.at + u
    ensures SameByte(content, at, volume, address)
  {
    assert SliceAt(volume, e)[u] == content[from..from + e.n][u];
  }

  /** What is found there comes from elsewhere, if anything is copied there at all. */
  lemma IsFound(l: Layout, volume: seq<byte>, p: ReadPlan, ch: seq<nat>, chunks: seq<seq<byte>>, found: seq<byte>, t: nat)
    requires Crosses(l, |volume|, p, ch) && AreChunks(l, volume, p, ch, chunks) && found == Joined(chunks, p.count) && t == MissedIndex(p)
    requires volume == OneByte(|volume|, MissedAddress(l, p, ch))
    ensures |found| == p.Total() && (t < |found| ==> found[t] == 0)
  {
    JoinedLength(chunks, p.count);
    ChunkStart(l, volume, p, ch, chunks, p.count);
    if t < |found| {
      var from := FoundFrom(l, volume, p, ch, chunks, found, t);
      ZeroByte(found, t, volume, from, MissedAddress(l, p, ch));
    }
  }

  lemma FoundFrom(l: Layout, volume: seq<byte>, p: ReadPlan, ch: seq<nat>, chunks: seq<seq<byte>>, found: seq<byte>, t: nat) returns (from: nat)
    requires Crosses(l, |volume|, p, ch) && AreChunks(l, volume, p, ch, chunks) && found == Joined(chunks, p.count) && t == MissedIndex(p)
    requires t < p.Total()
    ensures SameByte(found, t, volume, from) && from != MissedAddress(l, p, ch)
  {
    assert l.InRange(ch[p.skip]) && l.InRange(ch[p.skip + 1]);
    if p.count == 1 {
      from := l.DataAddress(ch[p.skip] + 1);
      ReadElsewhere(l, volume, p, ch, chunks);
      AddressesDiffer(l, ch[p.skip] + 1, ch[p.skip + 1]);
    } else {
      from := l.DataAddress(ch[p.skip + 1]);
      ThirdChunk(p);
      SecondChunk(l, volume, p, ch, chunks);
    }
  }

  lemma ThirdChunk(p: ReadPlan)
    requires p.Sound() && p.count > 1 && p.cs < p.Total()
    ensures p.Length(1) > 0
  {
    StartMore(p, 0, 1);
    if p.count == 2 { StartMore(p, 1, 2); }
  }

  lemma AddressesDiffer(l: Layout, c: nat, d: nat)
    requires 2 <= c && 2 <= d && c != d && l.clusterSize > 0
    ensures l.DataAddress(c) != l.DataAddress(d)
  {
    if c < d { ClustersApart(l, c, d); } else { ClustersApart(l, d, c); }
  }

  lemma ZeroByte(found: seq<byte>, t: nat, volume: seq<byte>, from: nat, at: nat)
    requires SameByte(found, t, volume, from) && volume == OneByte(|volume|, at) && from != at
    ensures found[t] == 0
  {
  }

  lemma Missed(l: Layout, volume: seq<byte>, p: ReadPlan, ch: seq<nat>, missed: nat,
               content: seq<byte>, before: seq<byte>, out: seq<byte>, r: int)
    requires Crosses(l, |volume|, p, ch) && Pieces(l, volume, ch, content) && p.Position() + p.size <= |content|
    requires missed == MissedAddress(l, p, ch) && volume == OneByte(|volume|, missed)
    requires before == Zeros(|before|) && p.size <= |before| && p.Total() <= |before|
    requires Outcome(l, volume, p, ch, before, out, r)
    ensures !SliceRead(content, p.Position(), p.size, before, out, r)
  {
    var chunks, t := Chunks(l, volume, p, ch), MissedIndex(p);
    var found := Joined(chunks, p.count);
    var at := p.Position() + t;
    ShouldFind(l, volume, p, ch, content, at);
    IsFound(l, volume, p, ch, chunks, found, t);
    WholeOutcome(l, volume, p, ch, found, before, out, r);
    BorderInside(p);
    Differs(content, p.Position(), p.size, at, volume, missed, before, found, t, out, r);
  }

  lemma BorderInside(p: ReadPlan)
    requires p.Sound() && p.count > 0 && p.offset > 0 && p.offset + p.size > p.cs
    ensures MissedIndex(p) < p.size
  {
    if p.count > 1 { TimesApart(0, p.count - 1, p.cs); }
  }

  lemma Differs(content: seq<byte>, from: nat, size: nat, at: nat, volume: seq<byte>, address: nat,
                before: seq<byte>, found: seq<byte>, t: nat, out: seq<byte>, r: int)
    requires from + size <= |content| && size <= |before| && |found| <= |before| && t < size && at == from + t
    requires SameByte(content, at, volume, address) && volume == OneByte(|volume|, address)
    requires before == Zeros(|before|) && (t < |found| ==> found[t] == 0) && out == Splice(before, 0, found)
    ensures !SliceRead(content, from, size, before, out, r)
  {
    assert out[t] == 0;
    var slice := content[from..from + size];
    assert Splice(before, 0, slice)[t] == slice[t] == content[at] == 1;
  }

  /** Every other read goes wrong on some volume. */
  lemma WrongRead(q: Request) returns (volume: seq<byte>, content: seq<byte>, before: seq<byte>, out: seq<byte>, r: int)
    requires q.Ok()
    requires !q.Suits()
    ensures q.GoesWrong(volume, content, before, out, r)
  {
    StartsInChain(q);
    var p := q.Cut();
    var missed := MissedAddress(q.l, p, q.ch);
    volume, before := OneByte(q.volumeSize, missed), Zeros(q.size + p.Total());
    content := FileOn(q.l, volume, q.ch);
    out, r := Ending(q.l, volume, p, q.ch, before);
    if FirstOn(q.l, q.volumeSize, p, q.ch) && q.position + q.size <= |content| {
      ItCrosses(q);
      Missed(q.l, volume, p, q.ch, missed, content, before, out, r);
    }
  }

  /** The file that the chain is on a volume. */
  lemma FileOn(l: Layout, volume: seq<byte>, ch: seq<nat>) returns (content: seq<byte>)
    requires l.Fits(|volume|) && OnVolume(l, ch)
    ensures Pieces(l, volume, ch, content) && |content| == Times(|ch|, l.clusterSize)
  {
    var data := seq(l.entries, (c: nat) => if c < 2 then [] else SliceAt(volume, Extent(l.DataAddress(c), l.clusterSize)));
    forall c: nat | 2 <= c < |data| ensures ClusterAt(l, volume, c, data[c]) {
      NoWrap(l, |volume|, c);
    }
    forall i | 0 <= i < |ch| ensures ch[i] < |data| {
      assert l.InRange(ch[i]);
    }
    FilePieces(l, volume, data, ch);
    ContentLength(data, ch, l.clusterSize);
    content := Content(data, ch);
  }

  /** Every read ends in some way. */
  lemma Ending(l: Layout, volume: seq<byte>, p: ReadPlan, ch: seq<nat>, before: seq<byte>) returns (out: seq<byte>, r: int)
    requires OnVolume(l, ch)
    ensures Outcome(l, volume, p, ch, before, out, r)
  {
    if p.skip <= |ch| && FirstOn(l, |volume|, p, ch) {
      r := if p.skip + p.count <= |ch| then SUCCESS else -EFSYSTEM;
      out := Splice(before, 0, Clipped(before, Joined(Chunks(l, volume, p, ch), ChunksHeld(p, ch))));
    } else {
      out, r := before, -EDISKSPACE;
    }
  }

  // ----- how far a read gets

  /** From byte 1 on: two clusters have a second chunk of no bytes; one byte less, one of a whole
      cluster. */
  lemma FromByteOne(cs: nat)
    requires cs > 1
    ensures PlanRead(cs, 1, 2 * cs) == ReadPlan(cs, 0, 1, 2 * cs, 2, 0)
    ensures PlanRead(cs, 1, 2 * cs - 1) == ReadPlan(cs, 0, 1, 2 * cs - 1, 2, cs)
  {
    DivUnique(0, 1, cs);
    DivUnique(2, 0, cs);
    DivUnique(2, 1, cs);
    DivUnique(1, cs - 1, cs);
  }

  /** With a second chunk of no bytes, one cluster is copied, with success; what was asked for is more. */
  lemma TooShort(l: Layout, volume: seq<byte>, p: ReadPlan, ch: seq<nat>, before: seq<byte>, out: seq<byte>, r: int)
    requires l.Fits(|volume|) && OnVolume(l, ch) && p.Sound() && l.clusterSize == p.cs && FirstOn(l, |volume|, p, ch)
    requires p.count == 2 && p.last == 0 && p.skip + 2 <= |ch| && p.size <= |before| && Outcome(l, volume, p, ch, before, out, r)
    ensures r == SUCCESS && |out| == |before| && p.cs < p.size && out[p.cs..] == before[p.cs..]
  {
    TwoChunks(p);
    AllCopied(l, volume, p, ch, Chunks(l, volume, p, ch), before, out, r);
  }

  /** With one of a whole cluster, two clusters are copied, even when fewer bytes were asked for: byte `t`
      of the memory at `out` is overwritten, whether or not it belongs to the caller's buffer. */
  lemma TooLong(l: Layout, volume: seq<byte>, p: ReadPlan, ch: seq<nat>, k: nat, t: nat, from: nat,
                before: seq<byte>, out: seq<byte>, r: int)
    requires l.Fits(|volume|) && OnVolume(l, ch) && p.Sound() && l.clusterSize == p.cs && FirstOn(l, |volume|, p, ch)
    requires p.count == 2 && p.last == p.cs && p.skip + 2 <= |ch| && 2 * p.cs <= |before| && Outcome(l, volume, p, ch, before, out, r)
    requires k < p.cs && t == p.cs + k && from == ChunkExtent(l, p, ch, 1).at + k
    ensures r == SUCCESS && SameByte(out, t, volume, from)
  {
    TwoChunks(p);
    var chunks := Chunks(l, volume, p, ch);
    var found := Joined(chunks, p.count);
    ChunkByte(l, volume, p, ch, chunks, 1, k, t, from);
    AllCopied(l, volume, p, ch, chunks, before, out, r);
    FrontByte(out, found, t, volume, from);
  }

  lemma TwoChunks(p: ReadPlan)
    requires p.count == 2
    ensures p.Start(1) == p.Length(0) == p.cs && p.Length(1) == p.last && p.Total() == p.cs + p.last
  {
  }

  lemma FrontByte(out: seq<byte>, found: seq<byte>, t: nat, volume: seq<byte>, from: nat)
    requires |found| <= |out| && out[..|found|] == found && SameByte(found, t, volume, from)
    ensures SameByte(out, t, volume, from)
  {
    assert out[t] == out[..|found|][t];
  }

  /** A read that does not run out of the file puts its bytes into the buffer and leaves what is behind. */
  lemma AllCopied(l: Layout, volume: seq<byte>, p: ReadPlan, ch: seq<nat>, chunks: seq<seq<byte>>, before: seq<byte>, out: seq<byte>, r: int)
    requires l.Fits(|volume|) && AreChunks(l, volume, p, ch, chunks) && p.Sound() && l.clusterSize == p.cs && FirstOn(l, |volume|, p, ch)
    requires p.skip + p.count <= |ch| && p.Total() <= |before| && Outcome(l, volume, p, ch, before, out, r)
    ensures r == SUCCESS && |out| == |before| && out[p.Total()..] == before[p.Total()..]
    ensures out[..p.Total()] == Joined(chunks, p.count)
  {
    JoinedLength(chunks, p.count);
    ChunkStart(l, volume, p, ch, chunks, p.count);
    WholeOutcome(l, volume, p, ch, Joined(chunks, p.count), before, out, r);
  }
}
