/** `readFatFile`, and reading back what was written. */
module FatReads {
  import opened Bytes
  import opened FatLayout
  import opened FatChains
  import opened FatContent
  import opened FatDevices
  import opened FatReadPlans
  import opened FatWrites
  import opened FatTheorems

  /** The arithmetic of `readFatFile`. `lastChunk` is the length it computes when one cluster is left. */
  method CutRead(cs: nat, size: nat, filePos: nat)
    returns (clustersToSkip: nat, clustersToRead: nat, filePosInCluster: nat, toRead: int, lastChunk: int)
    requires 0 < cs <= 0xFFFF
    ensures lastChunk >= 0 && ReadPlan(cs, clustersToSkip, filePosInCluster, size, clustersToRead, lastChunk) == PlanRead(cs, filePos, size)
    ensures clustersToRead > 0 ==> toRead == PlanRead(cs, filePos, size).Length(0)
  {
    PlanReadSound(cs, filePos, size);
    clustersToRead := size / cs;
    filePosInCluster := filePos % cs;
    toRead := cs;
    clustersToSkip := if filePos >= cs then filePos / cs else 0;
    if filePos < cs { DivUnique(0, filePos, cs); }
    if size % cs != 0 { clustersToRead := clustersToRead + 1; }
    if size < cs {
      toRead := toRead - (cs - size % cs);
      DivUnique(0, size, cs);
    } else {
      DivTimes(size, cs);
      if size > cs { TimesApart(0, size / cs, cs); }
    }
    lastChunk := if (filePos + size) % cs == 0 then cs else size % cs;
  }

  /** The clusters of a file that has some, or none. */
  ghost predicate IsFile(fat: seq<nat>, ch: seq<nat>, startCluster: nat) {
    if ch == [] then startCluster == 0 else IsChain(fat, ch) && startCluster == ch[0]
  }

  /** Cluster `k` of the file, or the mark behind its last one. */
  ghost predicate AtCluster(ch: seq<nat>, k: nat, c: nat) {
    if k < |ch| then c == ch[k] else !IsLink(c)
  }

  lemma FileOnVolume(d: FatDevice, ch: seq<nat>, startCluster: nat)
    requires d.Valid() && IsFile(d.fat, ch, startCluster)
    ensures OnVolume(d.layout, ch) && AtCluster(ch, 0, startCluster)
  {
    forall i | 0 <= i < |ch| ensures d.layout.InRange(ch[i]) { ChainLink(d.fat, ch, i); }
  }

  lemma NextAt(fat: seq<nat>, ch: seq<nat>, k: nat, c: nat)
    requires IsChain(fat, ch) && k < |ch| && AtCluster(ch, k, c)
    ensures 2 <= c < |fat| && AtCluster(ch, k + 1, fat[c])
  {
    ChainLink(fat, ch, k);
  }

  /** Follows `skip` links. A position behind the chain makes it look for the entry of the end mark,
      which lies behind the end of a volume of less than 1 GiB. */
  method SkipClusters(d: FatDevice, startCluster: nat, skip: nat, ghost ch: seq<nat>) returns (c: nat, r: int)
    requires d.Valid() && IsFile(d.fat, ch, startCluster)
    requires skip > |ch| ==> ch != [] && d.layout.FatAddress(FAT_ENTRY_USED) + 4 > |d.Volume()|
    requires ch == [] ==> skip == 0
    modifies d.readStream`position, d.readStream.diskStream`position, d.disk`faults
    ensures d.Valid() && d.disk.faults >= old(d.disk.faults)
    ensures r == SUCCESS ==> d.disk.faults == old(d.disk.faults) && skip <= |ch| && AtCluster(ch, skip, c)
    ensures r != SUCCESS ==> r < 0 && (d.disk.faults > old(d.disk.faults) || (r == -EDISKSPACE && skip > |ch|))
  {
    FileOnVolume(d, ch, startCluster);
    c, r := startCluster, SUCCESS;
    for i := 0 to skip
      invariant d.Valid() && d.disk.faults == old(d.disk.faults) && r == SUCCESS
      invariant i <= |ch| && AtCluster(ch, i, c) && (i == |ch| > 0 ==> c == FAT_ENTRY_USED)
    {
      if i < |ch| { ChainLink(d.fat, ch, i); }
      c, r := d.GetFatEntry(c);
      if r < 0 { return; }
    }
  }

  /** The variables of the loop of `readFatFile` in front of chunk `i`. */
  ghost predicate ReadCounters(p: ReadPlan, i: nat, ch: seq<nat>, current: nat, offset: nat, toRead: int, totalRead: int) {
    && i <= p.count && p.skip + i <= |ch| && AtCluster(ch, p.skip + i, current)
    && totalRead == p.Start(i)
    && (i < p.count ==> toRead == p.Length(i) && offset == p.Inner(i))
  }

  /** The first `i` chunks were copied. */
  ghost predicate Copied(p: ReadPlan, chunks: seq<seq<byte>>, i: nat, before: seq<byte>, out: seq<byte>) {
    && i <= |chunks| && |Joined(chunks, i)| == p.Start(i) <= |before|
    && out == Splice(before, 0, Joined(chunks, i))
  }

  lemma ReadCountersStep(p: ReadPlan, i: nat, ch: seq<nat>, current: nat, offset: nat, toRead: int, totalRead: int,
                     fat: seq<nat>, j: nat, next: nat, nextChunk: int, nextTotal: int)
    requires p.Sound() && ReadCounters(p, i, ch, current, offset, toRead, totalRead) && i < p.count && p.skip + i < |ch|
    requires IsChain(fat, ch) && current < |fat| && next == fat[current] && j == i + 1
    requires nextTotal == totalRead + toRead && nextChunk == if i + 2 == p.count then p.last else p.cs
    ensures ReadCounters(p, j, ch, next, 0, nextChunk, nextTotal)
  {
    StartMore(p, i, j);
    NextAt(fat, ch, p.skip + i, current);
  }

  lemma CopiedStep(p: ReadPlan, chunks: seq<seq<byte>>, i: nat, before: seq<byte>, out: seq<byte>, at: nat, j: nat, out': seq<byte>)
    requires p.Sound() && i < p.count && Copied(p, chunks, i, before, out)
    requires i < |chunks| && |chunks[i]| == p.Length(i) && at == p.Start(i) && at + |chunks[i]| <= |before| && j == i + 1
    requires out' == Splice(out, at, chunks[i])
    ensures Copied(p, chunks, j, before, out')
  {
    SpliceLonger(before, Joined(chunks, i), chunks[i]);
    StartMore(p, i, j);
  }

  lemma SpliceLonger(s: seq<byte>, a: seq<byte>, b: seq<byte>)
    requires |a| + |b| <= |s|
    ensures Splice(Splice(s, 0, a), |a|, b) == Splice(s, 0, a + b)
  {
  }

  lemma RoomLeft(p: ReadPlan, i: nat, room: nat)
    requires p.Sound() && i < p.count && p.Total() <= room
    ensures p.Start(i) + p.Length(i) <= room
  {
    StartMore(p, i, i + 1);
    StartGrows(p, i + 1, p.count);
  }

  lemma {:induction false} StartGrows(p: ReadPlan, m: nat, n: nat)
    requires p.Sound() && m <= n <= p.count
    ensures p.Start(m) <= p.Start(n)
    decreases n
  {
    if m < n {
      StartGrows(p, m, n - 1);
      StartMore(p, n - 1, n);
    }
  }

  function Clipped(before: seq<byte>, bytes: seq<byte>): seq<byte> {
    if |bytes| <= |before| then bytes else []
  }

  /** How a read ends that meets no failure: it copies the chunks that the file holds, with
      `-EFSYSTEM` if these are not all, or fails at once, because it starts behind the file or its
      first chunk runs on behind the end of the volume. */
  ghost predicate Outcome(l: Layout, volume: seq<byte>, p: ReadPlan, ch: seq<nat>, before: seq<byte>, out: seq<byte>, r: int)
    requires OnVolume(l, ch)
  {
    if p.skip <= |ch| && FirstOn(l, |volume|, p, ch) then
      && r == (if p.skip + p.count <= |ch| then SUCCESS else -EFSYSTEM)
      && out == Splice(before, 0, Clipped(before, Joined(Chunks(l, volume, p, ch), ChunksHeld(p, ch))))
    else r == -EDISKSPACE && out == before
  }

  /** A call of `readFatFile` on a volume, past the clusters it skips. */
  datatype ReadCall = ReadCall(l: Layout, volume: seq<byte>, fat: seq<nat>, ch: seq<nat>, p: ReadPlan, chunks: seq<seq<byte>>, before: seq<byte>)
  {
    ghost predicate Sound() {
      && l.Fits(|volume|) && AreChunks(l, volume, p, ch, chunks) && p.Sound() && l.clusterSize == p.cs && p.skip <= |ch|
      && p.Total() <= |before| && (ch != [] ==> IsChain(fat, ch))
    }

    ghost predicate On(d: FatDevice)
      reads d.Footprint()
    {
      Sound() && d.Valid() && d.layout == l && d.Volume() == volume && d.fat == fat
    }

    /** Its loop in front of chunk `i`. */
    ghost predicate At(i: nat, current: nat, offset: nat, toRead: int, totalRead: int, out: seq<byte>) {
      && ReadCounters(p, i, ch, current, offset, toRead, totalRead) && Copied(p, chunks, i, before, out)
      && (i > 0 ==> OnVolume(l, ch) && FirstOn(l, |volume|, p, ch))
    }

    ghost predicate Ends(out: seq<byte>, r: int) {
      OnVolume(l, ch) && Outcome(l, volume, p, ch, before, out, r)
    }

    lemma Starts(current: nat, toRead: int)
      requires Sound() && AtCluster(ch, p.skip, current) && (p.count > 0 ==> toRead == p.Length(0))
      ensures At(0, current, p.offset, toRead, 0, before)
    {
      assert Splice(before, 0, []) == before;
    }

    /** The loop goes on exactly while the chain does. */
    lemma Guard(i: nat, current: nat, offset: nat, toRead: int, totalRead: int, out: seq<byte>)
      requires Sound() && At(i, current, offset, toRead, totalRead, out)
      ensures IsLink(current) <==> p.skip + i < |ch|
    {
      if p.skip + i < |ch| { ChainLink(fat, ch, p.skip + i); }
    }

    /** The chunk that is read next. */
    lemma ChunkFrom(i: nat, current: nat, offset: nat, toRead: int, totalRead: int, out: seq<byte>)
      requires Sound() && At(i, current, offset, toRead, totalRead, out) && i < p.count && p.skip + i < |ch|
      ensures l.InRange(current) && offset < l.clusterSize && toRead >= 0 && 0 <= totalRead && totalRead + toRead <= |before| == |out|
      ensures i < |chunks| && ChunkExtent(l, p, ch, i) == Extent(l.DataAddress(current) + offset, toRead)
    {
      ChunkIs(l, volume, p, ch, chunks, i);
      RoomLeft(p, i, |before|);
    }

    /** Only the first chunk can run on behind the end of the volume. */
    lemma Stops(i: nat, current: nat, offset: nat, toRead: int, totalRead: int, out: seq<byte>, from: nat, n: nat)
      requires Sound() && At(i, current, offset, toRead, totalRead, out) && i < |chunks| && p.skip + i < |ch|
      requires ChunkExtent(l, p, ch, i) == Extent(from, n) && from + n > |volume|
      ensures Ends(out, -EDISKSPACE)
    {
      ChunkIs(l, volume, p, ch, chunks, i);
      if i > 0 {
        ChunkOn(l, |volume|, p, ch, i);
      } else {
        assert Splice(before, 0, []) == before;
      }
    }

    lemma Step(i: nat, current: nat, offset: nat, toRead: int, totalRead: int, out: seq<byte>, from: nat, n: nat,
               j: nat, next: nat, nextChunk: int, nextTotal: int, out': seq<byte>)
      requires Sound() && At(i, current, offset, toRead, totalRead, out) && i < |chunks| && p.skip + i < |ch|
      requires ChunkExtent(l, p, ch, i) == Extent(from, n) && n == toRead
      requires from + n <= |volume| && totalRead + n <= |before| && out' == Splice(out, totalRead, volume[from..from + n])
      requires current < |fat| && next == fat[current] && j == i + 1
      requires nextTotal == totalRead + toRead && nextChunk == if i + 2 == p.count then p.last else p.cs
      ensures At(j, next, 0, nextChunk, nextTotal, out')
    {
      ChunkIs(l, volume, p, ch, chunks, i);
      ReadCountersStep(p, i, ch, current, offset, toRead, totalRead, fat, j, next, nextChunk, nextTotal);
      CopiedStep(p, chunks, i, before, out, totalRead, j, out');
    }

    /** All chunks that the file holds were copied. */
    lemma AllHeld(i: nat, current: nat, offset: nat, toRead: int, totalRead: int, out: seq<byte>)
      requires Sound() && At(i, current, offset, toRead, totalRead, out) && (i == p.count || !IsLink(current))
      ensures Ends(out, if i == p.count then SUCCESS else -EFSYSTEM)
    {
      Guard(i, current, offset, toRead, totalRead, out);
      assert i == ChunksHeld(p, ch);
    }
  }

  /** Behind a chunk that was read, the variables for the next one. */
  method NextRound(d: FatDevice, current: nat, offset: nat, totalRead: nat, toRead: nat, lastChunk: nat, isLast: bool,
                   ghost call: ReadCall, ghost i: nat, ghost j: nat, ghost was: seq<byte>, ghost from: nat, ghost out: seq<byte>)
    returns (next: nat, nextChunk: nat, nextTotal: nat, r: int)
    requires call.On(d) && call.At(i, current, offset, toRead, totalRead, was) && current < |call.fat|
    requires i < |call.chunks| && call.p.skip + i < |call.ch| && ChunkExtent(call.l, call.p, call.ch, i) == Extent(from, toRead)
    requires from + toRead <= |call.volume| && totalRead + toRead <= |was|
    requires out == Splice(was, totalRead, call.volume[from..from + toRead])
    requires j == i + 1 && (isLast <==> i + 2 == call.p.count) && lastChunk == call.p.last
    modifies d.readStream`position, d.readStream.diskStream`position, d.disk`faults
    ensures call.On(d) && d.disk.faults >= old(d.disk.faults)
    ensures if r == SUCCESS then d.disk.faults == old(d.disk.faults) && call.At(j, next, 0, nextChunk, nextTotal, out)
            else r < 0 && d.disk.faults > old(d.disk.faults)
  {
    nextChunk, nextTotal := if isLast then lastChunk else d.layout.clusterSize, totalRead + toRead;
    next, r := d.GetFatEntry(current);
    if r == SUCCESS { call.Step(i, current, offset, toRead, totalRead, was, from, toRead, j, next, nextChunk, nextTotal, out); }
  }

  /** One round of the read loop: a chunk of the current cluster, then the next cluster. */
  method ReadRound(d: FatDevice, current: nat, offset: nat, out: array<byte>, totalRead: nat, toRead: nat, lastChunk: nat, isLast: bool,
                   ghost call: ReadCall, ghost i: nat, ghost j: nat)
    returns (next: nat, nextChunk: nat, nextTotal: nat, r: int)
    requires call.On(d) && call.At(i, current, offset, toRead, totalRead, out[..])
    requires i < call.p.count && j == i + 1 && call.p.skip + i < |call.ch| && (isLast <==> i + 2 == call.p.count) && lastChunk == call.p.last
    modifies d.readStream`position, d.readStream.diskStream`position, d.disk`faults, out
    ensures call.On(d) && d.disk.faults >= old(d.disk.faults)
    ensures if r == SUCCESS then d.disk.faults == old(d.disk.faults) && call.At(j, next, 0, nextChunk, nextTotal, out[..])
            else r < 0 && (d.disk.faults > old(d.disk.faults) || call.Ends(out[..], r))
  {
    ghost var was := out[..];
    call.ChunkFrom(i, current, offset, toRead, totalRead, was);
    ghost var from := d.layout.DataAddress(current) + offset;
    next, nextChunk, nextTotal := current, toRead, totalRead;
    r := d.ReadCluster(current, offset, out, totalRead, toRead, from);
    if r < 0 {
      if d.disk.faults == old(d.disk.faults) { call.Stops(i, current, offset, toRead, totalRead, was, from, toRead); }
      return;
    }
    next, nextChunk, nextTotal, r := NextRound(d, current, offset, totalRead, toRead, lastChunk, isLast, call, i, j, was, from, out[..]);
  }

  /** The loop of `readFatFile`, and the test behind it. */
  method ReadChunks(d: FatDevice, firstCluster: nat, clustersToRead: nat, filePosInCluster: nat, firstChunk: nat, lastChunk: nat, out: array<byte>,
                    ghost call: ReadCall) returns (r: int)
    requires call.On(d) && call.At(0, firstCluster, filePosInCluster, firstChunk, 0, out[..])
    requires clustersToRead == call.p.count && lastChunk == call.p.last
    modifies d.readStream`position, d.readStream.diskStream`position, d.disk`faults, out
    ensures d.Valid() && d.disk.faults >= old(d.disk.faults)
    ensures d.disk.faults == old(d.disk.faults) ==> call.Ends(out[..], r)
  {
    var currentCluster, currentFilePos, currentToRead, total := firstCluster, filePosInCluster, firstChunk, 0;
    var i := 0;
    while i < clustersToRead
      invariant i <= clustersToRead && d.disk.faults == old(d.disk.faults) && call.On(d)
      invariant call.At(i, currentCluster, currentFilePos, currentToRead, total, out[..])
    {
      call.Guard(i, currentCluster, currentFilePos, currentToRead, total, out[..]);
      if currentCluster == FAT_ENTRY_USED || currentCluster == FAT_ENTRY_FREE { break; }
      currentCluster, currentToRead, total, r :=
        ReadRound(d, currentCluster, currentFilePos, out, total, currentToRead, lastChunk, i + 2 == clustersToRead, call, i, i + 1);
      if r < 0 { return; }
      currentFilePos := 0;
      i := i + 1;
    }
    call.AllHeld(i, currentCluster, currentFilePos, currentToRead, total, out[..]);
    r := if i != clustersToRead then -EFSYSTEM else SUCCESS;
  }

  /** `readFatFile`, for every position and size. It copies the chunks of the plan up to the end of the
      file, whatever room the caller has made; the memory behind `out` must be there. Which reads copy
      what was asked for, says `ReadsExactly`. */
  method ReadFatFile(d: FatDevice, startCluster: nat, size: nat, filePos: nat, out: array<byte>, ghost ch: seq<nat>) returns (r: int)
    requires d.Valid() && IsFile(d.fat, ch, startCluster)
    requires PlanRead(d.layout.clusterSize, filePos, size).Total() <= out.Length
    requires ch == [] ==> filePos < d.layout.clusterSize
    requires filePos / d.layout.clusterSize > |ch| ==> d.layout.FatAddress(FAT_ENTRY_USED) + 4 > |d.Volume()|
    modifies d.readStream`position, d.readStream.diskStream`position, d.disk`faults, out
    ensures d.Valid() && OnVolume(d.layout, ch)
    ensures d.disk.faults == old(d.disk.faults) ==>
              Outcome(d.layout, d.Volume(), PlanRead(d.layout.clusterSize, filePos, size), ch, old(out[..]), out[..], r)
  {
    ghost var p := PlanRead(d.layout.clusterSize, filePos, size);
    PlanReadSound(d.layout.clusterSize, filePos, size);
    FileOnVolume(d, ch, startCluster);
    var clustersToSkip, clustersToRead, offset, firstChunk, lastChunk := CutRead(d.layout.clusterSize, size, filePos);
    if clustersToRead == 0 { firstChunk := 0; }
    if ch == [] { DivUnique(0, filePos, d.layout.clusterSize); }
    var current;
    current, r := SkipClusters(d, startCluster, clustersToSkip, ch);
    if r < 0 { return; }
    ghost var call := ReadCall(d.layout, d.Volume(), d.fat, ch, p, Chunks(d.layout, d.Volume(), p, ch), out[..]);
    call.Starts(current, firstChunk);
    r := ReadChunks(d, current, clustersToRead, offset, firstChunk, lastChunk, out, call);
  }

  /** A slice of `content` was read, or it runs past its end. */
  ghost predicate SliceRead(content: seq<byte>, filePos: nat, size: nat, before: seq<byte>, out: seq<byte>, r: int)
    requires filePos <= |content| && size <= |before|
  {
    if filePos + size <= |content| then r == SUCCESS && out == Splice(before, 0, content[filePos..filePos + size])
    else r == -EFSYSTEM
  }

  lemma SliceOutcome(l: Layout, volume: seq<byte>, p: ReadPlan, ch: seq<nat>, content: seq<byte>, before: seq<byte>, out: seq<byte>, r: int)
    requires l.Fits(|volume|) && l.clusterSize == p.cs && OnVolume(l, ch) && Pieces(l, volume, ch, content)
    requires p.Sound() && p.StaysIn() && p.Total() == p.size && (p.offset > 0 ==> p.offset + p.size <= p.cs)
    requires |content| == Times(|ch|, p.cs) && p.Position() <= |content| && p.size <= |before|
    requires Outcome(l, volume, p, ch, before, out, r)
    ensures SliceRead(content, p.Position(), p.size, before, out, r)
  {
    ChainHolds(p, |ch|);
    FirstInside(l, |volume|, ch, p);
    if p.skip + p.count <= |ch| {
      SliceFound(l, volume, p, ch, Chunks(l, volume, p, ch), content, before, out, r);
    } else {
      ShortOutcome(l, volume, p, ch, before, out, r);
    }
  }

  lemma SliceFound(l: Layout, volume: seq<byte>, p: ReadPlan, ch: seq<nat>, chunks: seq<seq<byte>>, content: seq<byte>,
                   before: seq<byte>, out: seq<byte>, r: int)
    requires l.Fits(|volume|) && AreChunks(l, volume, p, ch, chunks) && Pieces(l, volume, ch, content) && l.clusterSize == p.cs
    requires p.Sound() && p.StaysIn()
    requires FirstOn(l, |volume|, p, ch) && p.skip + p.count <= |ch| && p.Position() <= |content| && p.Total() == p.size <= |before|
    requires Outcome(l, volume, p, ch, before, out, r)
    ensures SliceRead(content, p.Position(), p.size, before, out, r)
  {
    RightRead(l, volume, p, ch, chunks, content, p.count);
    FoundRead(l, volume, p, ch, chunks, content, before, out, r);
  }

  lemma FoundRead(l: Layout, volume: seq<byte>, p: ReadPlan, ch: seq<nat>, chunks: seq<seq<byte>>, content: seq<byte>,
                  before: seq<byte>, out: seq<byte>, r: int)
    requires AreChunks(l, volume, p, ch, chunks) && FirstOn(l, |volume|, p, ch) && p.skip + p.count <= |ch| && p.size <= |before|
    requires p.Position() + p.size <= |content| && Joined(chunks, p.count) == content[p.Position()..p.Position() + p.size]
    requires Outcome(l, volume, p, ch, before, out, r)
    ensures SliceRead(content, p.Position(), p.size, before, out, r)
  {
    var found := Joined(chunks, p.count);
    WholeOutcome(l, volume, p, ch, found, before, out, r);
    FoundIsRead(found, content, p.Position(), p.size, before, out, r);
  }

  lemma FoundIsRead(found: seq<byte>, content: seq<byte>, from: nat, size: nat, before: seq<byte>, out: seq<byte>, r: int)
    requires from + size <= |content| && found == content[from..from + size] && size <= |before|
    requires out == Splice(before, 0, found) && r == SUCCESS
    ensures SliceRead(content, from, size, before, out, r)
  {
  }

  lemma WholeOutcome(l: Layout, volume: seq<byte>, p: ReadPlan, ch: seq<nat>, found: seq<byte>, before: seq<byte>, out: seq<byte>, r: int)
    requires OnVolume(l, ch) && FirstOn(l, |volume|, p, ch) && p.skip + p.count <= |ch| && Outcome(l, volume, p, ch, before, out, r)
    requires found == Joined(Chunks(l, volume, p, ch), p.count) && |found| <= |before|
    ensures r == SUCCESS && out == Splice(before, 0, found)
  {
  }

  lemma ShortOutcome(l: Layout, volume: seq<byte>, p: ReadPlan, ch: seq<nat>, before: seq<byte>, out: seq<byte>, r: int)
    requires OnVolume(l, ch) && FirstOn(l, |volume|, p, ch) && p.skip <= |ch| < p.skip + p.count && Outcome(l, volume, p, ch, before, out, r)
    ensures r == -EFSYSTEM
  {
  }

  lemma FirstInside(l: Layout, volumeSize: nat, ch: seq<nat>, p: ReadPlan)
    requires l.Fits(volumeSize) && OnVolume(l, ch) && p.Sound() && p.StaysIn() && l.clusterSize == p.cs
    ensures FirstOn(l, volumeSize, p, ch)
  {
    if p.count > 0 && p.skip < |ch| {
      RightChunk(p, 0);
      assert l.InRange(ch[p.skip]);
      NoWrap(l, volumeSize, ch[p.skip]);
    }
  }

  lemma FilePieces(l: Layout, volume: seq<byte>, data: seq<seq<byte>>, ch: seq<nat>)
    requires ClustersAt(l, volume, data) && |data| == l.entries && OnVolume(l, ch)
    requires forall i :: 0 <= i < |ch| ==> ch[i] < |data|
    ensures Sized(data, ch, l.clusterSize) && Pieces(l, volume, ch, Content(data, ch))
  {
    forall i {:trigger ch[i]} | 0 <= i < |ch| ensures |data[ch[i]]| == l.clusterSize {
      assert l.InRange(ch[i]) && ClusterAt(l, volume, ch[i], data[ch[i]]);
    }
    forall i: nat {:trigger ch[i]} | i < |ch| ensures l.InRange(ch[i]) && PieceAt(l, volume, ch[i], Content(data, ch), Times(i, l.clusterSize)) {
      FilePiece(l, volume, data, ch, i);
    }
  }

  lemma FilePiece(l: Layout, volume: seq<byte>, data: seq<seq<byte>>, ch: seq<nat>, i: nat)
    requires Sized(data, ch, l.clusterSize) && i < |ch| && l.InRange(ch[i]) && ClustersAt(l, volume, data)
    ensures PieceAt(l, volume, ch[i], Content(data, ch), Times(i, l.clusterSize))
  {
    ContentAt(data, ch, l.clusterSize, i);
    assert ClusterAt(l, volume, ch[i], data[ch[i]]);
    OnePiece(l, volume, ch[i], data[ch[i]], Content(data, ch), Times(i, l.clusterSize));
  }

  lemma OnePiece(l: Layout, volume: seq<byte>, c: nat, own: seq<byte>, content: seq<byte>, at: nat)
    requires l.InRange(c) && ClusterAt(l, volume, c, own) && at + l.clusterSize <= |content| && content[at..at + l.clusterSize] == own
    ensures PieceAt(l, volume, c, content, at)
  {
  }

  lemma ChainHolds(p: ReadPlan, clusters: nat)
    requires p.Sound() && (p.offset > 0 ==> p.offset + p.size <= p.cs) && p.Position() <= Times(clusters, p.cs)
    ensures p.skip <= clusters && (p.Position() + p.size <= Times(clusters, p.cs) <==> p.skip + p.count <= clusters)
  {
    if p.skip > clusters { TimesApart(clusters, p.skip, p.cs); }
    if p.count > 0 {
      LastCluster(p);
      var k := p.skip + p.count;
      if k < clusters { TimesApart(k, clusters, p.cs); }
      if clusters < k - 1 { TimesApart(clusters, k - 1, p.cs); }
    }
  }

  lemma LastCluster(p: ReadPlan)
    requires p.Sound() && (p.offset > 0 ==> p.offset + p.size <= p.cs) && p.count > 0
    ensures Times(p.skip + p.count - 1, p.cs) < p.Position() + p.size <= Times(p.skip + p.count, p.cs)
  {
    TimesSum(p.skip, p.count, p.cs);
    TimesSum(p.skip, p.count - 1, p.cs);
    if p.offset > 0 { OneChunk(p); }
  }

  /** Reading back what a write in place has put into a file, and what was there before it. */
  lemma ReadAfterWrite(call: Call, data': seq<seq<byte>>, ch': seq<nat>)
    requires call.Sound() && call.BytesDone(data', ch')
    requires call.plan.Position() <= |Content(call.data, call.ch)| && call.plan.Fills()
    ensures var position, size := call.plan.Position(), call.plan.size;
            && position + size <= |Content(data', ch')|
            && Content(data', ch')[position..position + size] == call.input[..size]
            && Content(data', ch')[..position] == Content(call.data, call.ch)[..position]
  {
    WriteIsSplice(call, data', ch');
    Unglue(Content(data', ch'), Content(call.data, call.ch)[..call.plan.Position()], call.input[..call.plan.size]);
  }

  lemma Unglue(s: seq<byte>, a: seq<byte>, b: seq<byte>)
    requires |a| + |b| <= |s| && s[..|a| + |b|] == a + b
    ensures s[..|a|] == a && s[|a|..|a| + |b|] == b
  {
    assert s[..|a|] == s[..|a| + |b|][..|a|];
    assert s[|a|..|a| + |b|] == s[..|a| + |b|][|a|..];
  }
}
