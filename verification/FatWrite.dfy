/** `writeFatFile`: truncating, extending and filling a file. */
module FatWrites {
  import opened Bytes
  import opened FatLayout
  import opened FatChains
  import opened FatContent
  import opened FatDevices
  import opened Fat32

  /** A volume and the arguments of a call. `ch` is the chain of the file. */
  datatype Call = Call(l: Layout, fat: seq<nat>, data: seq<seq<byte>>, ch: seq<nat>, plan: Plan, input: seq<byte>)
  {
    ghost predicate Sound() {
      && IsChain(fat, ch)
      && |data| == |fat| && l.clusterSize == plan.cs
      && (forall c {:trigger data[c]} :: 2 <= c < |data| ==> |data[c]| == plan.cs)
      && plan.Sound()
      && plan.size <= |input| && (plan.count > 0 ==> plan.first <= |input|)
    }

    /** How much of the old chain stays: up to the cluster the write starts in. */
    function Kept(): nat {
      if plan.skip < |ch| then plan.skip + 1 else |ch|
    }

    /** The length of the new chain. */
    function Length(): nat {
      plan.skip + if plan.count == 0 then 1 else plan.count
    }

    /** The old bytes in front of the write. */
    ghost function Front(): seq<byte>
      requires Sound()
    {
      var old_ := Content(data, ch);
      if plan.Position() <= |old_| then old_[..plan.Position()] else old_
    }

    /** What can be allocated during the call: free clusters and those cut off the file. */
    ghost predicate Available(c: nat) {
      2 <= c < |fat| && c < ScanLimit(l.totalSectorsBig) && (fat[c] == FAT_ENTRY_FREE || c in ch[Kept()..])
    }

    ghost function AvailableSet(): set<nat> {
      set c: nat | c < |fat| && Available(c)
    }

    ghost predicate EnoughSpace() {
      Length() - Kept() <= |AvailableSet()|
    }

    /** The chain keeps its start and continues with the lowest available clusters, in order. */
    ghost predicate Grown(fat': seq<nat>, ch': seq<nat>) {
      && Rewritten(fat, ch, fat', ch')
      && |ch'| >= Kept() && ch'[..Kept()] == ch[..Kept()]
      && (forall i {:trigger ch'[i]} :: Kept() <= i < |ch'| ==> Available(ch'[i]) && LowestBut(ch'[Kept()..i], ch'[i]))
    }

    ghost predicate LowestBut(taken: seq<nat>, c: nat) {
      c !in taken && forall d: nat :: Available(d) && d !in taken ==> c <= d
    }

    // ----- the bytes

    /** Chunk `j` lies in the input, and in its cluster. */
    ghost predicate ChunkRange(j: nat) {
      0 <= plan.Length(j) <= plan.cs - plan.Inner(j) && plan.Start(j) + plan.Length(j) <= |input|
    }

    /** The bytes of a cluster with chunk `j` written into it. */
    ghost function Chunked(j: nat, own: seq<byte>): (r: seq<byte>)
      ensures |r| == |own|
    {
      if ChunkRange(j) && |own| == plan.cs then Splice(own, plan.Inner(j), input[plan.Start(j)..plan.Start(j) + plan.Length(j)]) else own
    }

    ghost predicate ChunkIn(j: nat, data': seq<seq<byte>>, ch': seq<nat>) {
      plan.skip + j < |ch'| && ch'[plan.skip + j] < |data'| == |data| && data'[ch'[plan.skip + j]] == Chunked(j, data[ch'[plan.skip + j]])
    }

    /** One of the first `n` chunks goes to cluster `c`. */
    predicate Touched(n: nat, ch': seq<nat>, c: int)
      requires plan.skip + n <= |ch'|
    {
      n > 0 && (ch'[plan.skip + n - 1] == c || Touched(n - 1, ch', c))
    }

    /** The first `n` chunks, and nothing else, have been written. */
    ghost predicate Written(n: nat, data': seq<seq<byte>>, ch': seq<nat>) {
      && |data'| == |data| && plan.skip + n <= |ch'|
      && (forall j: nat {:trigger ChunkIn(j, data', ch')} :: j < n ==> ChunkIn(j, data', ch'))
      && (forall c {:trigger Touched(n, ch', c)} :: 0 <= c < |data| && !Touched(n, ch', c) ==> data'[c] == data[c])
    }

    lemma {:induction false} TouchedAt(n: nat, ch': seq<nat>, c: int) returns (j: nat)
      requires plan.skip + n <= |ch'| && Touched(n, ch', c)
      ensures j < n && ch'[plan.skip + j] == c
    {
      if ch'[plan.skip + n - 1] == c { j := n - 1; } else { j := TouchedAt(n - 1, ch', c); }
    }

    lemma {:induction false} TouchedLonger(n: nat, ch': seq<nat>, x: nat, c: int)
      requires plan.skip + n <= |ch'|
      ensures Touched(n, ch' + [x], c) <==> Touched(n, ch', c)
    {
      if n > 0 { TouchedLonger(n - 1, ch', x, c); }
    }

    /** Clusters off the new chain keep their bytes. */
    lemma OffChain(n: nat, data': seq<seq<byte>>, ch': seq<nat>)
      requires Written(n, data', ch')
      ensures forall c {:trigger data'[c]} :: 0 <= c < |data| && c !in ch' ==> data'[c] == data[c]
    {
      forall c | 0 <= c < |data| && c !in ch' ensures data'[c] == data[c] {
        if Touched(n, ch', c) { var j := TouchedAt(n, ch', c); }
      }
    }

    lemma WrittenMore(n: nat, data': seq<seq<byte>>, ch': seq<nat>, data'': seq<seq<byte>>)
      requires Written(n, data', ch') && Distinct(ch') && |ch'| == plan.skip + 1 + n
      requires |data''| == |data'| && ch'[plan.skip + n] < |data'|
      requires forall b {:trigger data''[b]} :: 0 <= b < |data'| && b != ch'[plan.skip + n] ==> data''[b] == data'[b]
      requires data''[ch'[plan.skip + n]] == Chunked(n, data'[ch'[plan.skip + n]])
      ensures Written(n + 1, data'', ch')
    {
      ChunkWritten(n, data', ch', data'');
      forall j: nat | j < n + 1 ensures ChunkIn(j, data'', ch') {
        if j < n { assert ChunkIn(j, data', ch'); }
      }
      forall b | 0 <= b < |data| && !Touched(n + 1, ch', b) ensures data''[b] == data[b] {
        assert !Touched(n, ch', b);
      }
    }

    lemma ChunkWritten(n: nat, data': seq<seq<byte>>, ch': seq<nat>, data'': seq<seq<byte>>)
      requires Written(n, data', ch') && Distinct(ch') && plan.skip + n < |ch'|
      requires |data''| == |data'| && ch'[plan.skip + n] < |data'|
      requires data''[ch'[plan.skip + n]] == Chunked(n, data'[ch'[plan.skip + n]])
      ensures ChunkIn(n, data'', ch')
    {
      var c := ch'[plan.skip + n];
      if Touched(n, ch', c) { var j := TouchedAt(n, ch', c); }
      assert data'[c] == data[c];
    }

    lemma WrittenLonger(n: nat, data': seq<seq<byte>>, ch': seq<nat>, c: nat)
      requires Written(n, data', ch')
      ensures Written(n, data', ch' + [c])
    {
      forall j: nat | j < n ensures ChunkIn(j, data', ch' + [c]) {
        assert ChunkIn(j, data', ch');
      }
      forall b | 0 <= b < |data| && !Touched(n, ch' + [c], b) ensures data'[b] == data[b] {
        TouchedLonger(n, ch', c, b);
      }
    }

    /** A write that has run to its end: the chunks, and no other byte, have been written, so that the
        old bytes are followed by those of the input. */
    ghost predicate Done(fat': seq<nat>, data': seq<seq<byte>>, ch': seq<nat>)
      requires Sound()
    {
      Grown(fat', ch') && BytesDone(data', ch')
    }

    /** What that means for the bytes. */
    ghost predicate BytesDone(data': seq<seq<byte>>, ch': seq<nat>)
      requires Sound()
    {
      && |ch'| == Length() && (forall i :: 0 <= i < |ch'| ==> ch'[i] >= 2)
      && Written(plan.count, data', ch')
      && Progress(plan, input, Front(), plan.Total(), data', ch')
    }

    /** `n` chunks have been written, and their bytes are `done`; the chain ends with cluster `k` of
        the write. */
    ghost predicate Underway(n: nat, done: int, k: nat, fat': seq<nat>, data': seq<seq<byte>>, ch': seq<nat>)
      requires Sound()
    {
      && Grown(fat', ch')
      && |ch'| == plan.skip + 1 + k
      && Written(n, data', ch')
      && (forall c {:trigger data'[c]} :: 2 <= c < |data'| ==> |data'[c]| == plan.cs)
      && 0 <= done && Progress(plan, input, Front(), done, data', ch')
    }

    /** Chunk `i` comes next, at the end of the chain. */
    ghost predicate Before(i: nat, fat': seq<nat>, data': seq<seq<byte>>, ch': seq<nat>)
      requires Sound()
    {
      Underway(i, plan.Start(i), i, fat', data', ch')
    }

    /** Chunk `i` has been written and the chain has not grown yet. */
    ghost predicate After(i: nat, fat': seq<nat>, data': seq<seq<byte>>, ch': seq<nat>)
      requires Sound()
    {
      Underway(i + 1, plan.Start(i) + plan.Length(i), i, fat', data', ch')
    }

    // ----- the steps

    /** What is free while the chain grows: everything available that was not taken yet. */
    lemma FreeWhileGrowing(fat': seq<nat>, ch': seq<nat>, c: nat)
      requires IsChain(fat, ch) && Rewritten(fat, ch, fat', ch')
      requires |ch'| >= Kept() && ch'[..Kept()] == ch[..Kept()]
      ensures IsFree(l, fat', c) <==> Available(c) && c !in ch'[Kept()..]
    {
      ChainsDistinct(fat, ch);
      SplitDistinct(ch, Kept());
      assert ch' == ch'[..Kept()] + ch'[Kept()..];
      InUse(fat, ch);
      if c < |fat| { FreeAfter(fat, ch, fat', ch', c); }
    }

    /** Cutting the chain behind the cluster the write starts in. */
    lemma Cut(fat': seq<nat>)
      requires Sound() && plan.skip < |ch| && Unlinked(fat, ch[plan.skip], fat')
      ensures Before(0, fat', data, ch[..plan.skip + 1])
    {
      UnlinkedChain(fat, ch, plan.skip, fat');
      FrontKept(ch[..plan.skip + 1]);
    }

    lemma FrontKept(ch': seq<nat>)
      requires Sound() && plan.skip < |ch| && ch' == ch[..plan.skip + 1]
      ensures Progress(plan, input, Front(), 0, data, ch')
    {
      assert forall i :: 0 <= i < |ch| ==> 2 <= ch[i] < |data|;
      ContentPrefix(data, ch, plan.cs, plan.skip + 1);
      assert Front() == Content(data, ch')[..plan.Position()];
    }

    /** The file was full up to a cluster end and got one more cluster. */
    lemma Appended(c: nat, fat': seq<nat>)
      requires Sound() && plan.skip == |ch| && IsLowestFree(l, fat, c)
      requires Unlinked(Linked(fat, ch[|ch| - 1], c), c, fat')
      ensures Before(0, fat', data, ch + [c])
    {
      Extended(fat, ch, c);
      UnlinkedEnd(Linked(fat, ch[|ch| - 1], c), ch + [c], fat');
      GrownAtEnd(c);
      FrontAppended(c);
    }

    lemma GrownAtEnd(c: nat)
      requires Sound() && plan.skip == |ch| && IsLowestFree(l, fat, c)
      ensures Grown(Linked(fat, ch[|ch| - 1], c), ch + [c])
    {
      Unchanged(fat, ch);
      Extended(fat, ch, c);
      GrownByOne(fat, ch, c);
    }

    /** The chain the loop starts from: cut behind the cluster the write starts in, or one longer. */
    function FirstChain(start: nat): seq<nat> {
      if plan.skip < |ch| then ch[..plan.skip + 1] else ch + [start]
    }

    /** `start` is the cluster the write starts in, and `before` the FAT once it is there. */
    ghost predicate StartsAt(before: seq<nat>, start: nat)
      requires Sound()
    {
      if plan.skip < |ch| then before == fat && start == ch[plan.skip]
      else plan.skip == |ch| && IsLowestFree(l, fat, start) && before == Linked(fat, ch[|ch| - 1], start)
    }

    lemma Startable(before: seq<nat>, start: nat)
      requires Sound() && StartsAt(before, start)
      ensures 2 <= start < |before| == |fat| && LinksInRange(before, start)
      ensures start == FirstChain(start)[|FirstChain(start)| - 1]
    {
      if plan.skip < |ch| {
        FollowsChain(before, ch, plan.skip);
      } else {
        Extended(fat, ch, start);
        FollowsChain(before, ch + [start], |ch|);
      }
    }

    lemma Started(before: seq<nat>, start: nat, fat': seq<nat>)
      requires Sound() && StartsAt(before, start) && Unlinked(before, start, fat')
      ensures Before(0, fat', data, FirstChain(start))
    {
      if plan.skip < |ch| { Cut(fat'); } else { Appended(start, fat'); }
    }

    lemma FrontAppended(c: nat)
      requires Sound() && plan.skip == |ch| && 2 <= c < |data|
      ensures Progress(plan, input, Front(), 0, data, ch + [c])
    {
      assert forall i :: 0 <= i < |ch| ==> 2 <= ch[i] < |data|;
      ContentLength(data, ch, plan.cs);
      ContentAppend(data, ch, c);
    }

    /** Writing chunk `i`. */
    lemma Filled(i: nat, fat': seq<nat>, data': seq<seq<byte>>, ch': seq<nat>, data'': seq<seq<byte>>)
      requires Sound() && i < plan.count && Before(i, fat', data', ch') && ChunkRange(i)
      requires ch'[|ch'| - 1] < |data'|
      requires data'' == data'[ch'[|ch'| - 1] := Splice(data'[ch'[|ch'| - 1]], plan.Inner(i), input[plan.Start(i)..plan.Start(i) + plan.Length(i)])]
      ensures After(i, fat', data'', ch')
    {
      ChainsDistinct(fat', ch');
      FilledBytes(i, data', ch', data'');
    }

    lemma FilledBytes(i: nat, data': seq<seq<byte>>, ch': seq<nat>, data'': seq<seq<byte>>)
      requires Sound() && i < plan.count && ChunkRange(i) && Distinct(ch') && |ch'| == plan.skip + 1 + i
      requires Written(i, data', ch') && Progress(plan, input, Front(), plan.Start(i), data', ch') && ch'[|ch'| - 1] < |data'|
      requires data'' == data'[ch'[|ch'| - 1] := Splice(data'[ch'[|ch'| - 1]], plan.Inner(i), input[plan.Start(i)..plan.Start(i) + plan.Length(i)])]
      ensures Written(i + 1, data'', ch')
      ensures Progress(plan, input, Front(), plan.Start(i) + plan.Length(i), data'', ch')
    {
      assert ch'[|ch'| - 1] == ch'[plan.skip + i];
      WrittenMore(i, data', ch', data'');
      ProgressChunk(plan, input, Front(), i, data', ch', data'');
    }

    lemma ChunkInRange(i: nat)
      requires Sound() && i < plan.count
      ensures ChunkRange(i) && plan.Length(i) > 0
    {
      ChunkBounds(plan, i);
    }

    /** The length the loop computes for the next chunk, 16 bits wide. */
    lemma NextChunk(i: nat)
      requires Sound() && i + 1 < plan.count && plan.cs <= 0xFFFF
      ensures plan.Start(i + 1) == plan.Start(i) + plan.Length(i)
      ensures plan.Length(i + 1) == if i + 2 == plan.count then (plan.size - plan.Start(i + 1)) % 0x1_0000 else plan.cs
    {
      ChunkBounds(plan, i);
      ChunkBounds(plan, i + 1);
    }

    /** Linking the next cluster. */
    lemma Longer(i: nat, fat': seq<nat>, data': seq<seq<byte>>, ch': seq<nat>, c: nat)
      requires Sound() && i + 1 < plan.count && After(i, fat', data', ch') && IsLowestFree(l, fat', c)
      ensures Before(i + 1, Linked(fat', ch'[|ch'| - 1], c), data', ch' + [c])
    {
      GrownLonger(fat', ch', c);
      BytesLonger(i, data', ch', c);
    }

    lemma GrownLonger(fat': seq<nat>, ch': seq<nat>, c: nat)
      requires IsChain(fat, ch) && Grown(fat', ch') && IsLowestFree(l, fat', c)
      ensures Grown(Linked(fat', ch'[|ch'| - 1], c), ch' + [c])
    {
      Extended(fat', ch', c);
      RewrittenTwice(fat, ch, fat', ch', Linked(fat', ch'[|ch'| - 1], c), ch' + [c]);
      GrownByOne(fat', ch', c);
    }

    lemma BytesLonger(i: nat, data': seq<seq<byte>>, ch': seq<nat>, c: nat)
      requires Sound() && i + 1 < plan.count && Written(i + 1, data', ch') && c < |data'| && |data'[c]| == plan.cs
      requires 0 <= plan.Start(i) + plan.Length(i) && Progress(plan, input, Front(), plan.Start(i) + plan.Length(i), data', ch')
      ensures Written(i + 1, data', ch' + [c])
      ensures Progress(plan, input, Front(), plan.Start(i + 1), data', ch' + [c])
    {
      ChunkBounds(plan, i);
      WrittenLonger(i + 1, data', ch', c);
      ProgressGrown(plan, input, Front(), plan.Start(i + 1), data', ch', c);
    }

    lemma GrownByOne(fat': seq<nat>, ch': seq<nat>, c: nat)
      requires IsChain(fat, ch) && Grown(fat', ch') && IsLowestFree(l, fat', c)
      requires Rewritten(fat, ch, Linked(fat', ch'[|ch'| - 1], c), ch' + [c])
      ensures Grown(Linked(fat', ch'[|ch'| - 1], c), ch' + [c])
    {
      var ch'' := ch' + [c];
      FreeWhileGrowing(fat', ch', c);
      forall d: nat | Available(d) && d !in ch'[Kept()..] ensures c <= d {
        FreeWhileGrowing(fat', ch', d);
      }
      forall i | Kept() <= i < |ch''| ensures Available(ch''[i]) && LowestBut(ch''[Kept()..i], ch''[i]) {
        assert ch''[Kept()..i] == ch'[Kept()..i];
        assert i < |ch'| ==> ch''[i] == ch'[i];
        assert i == |ch'| ==> ch'[Kept()..i] == ch'[Kept()..];
      }
    }

    lemma LastChunk(i: nat, fat': seq<nat>, data': seq<seq<byte>>, ch': seq<nat>)
      requires Sound() && i + 1 == plan.count && After(i, fat', data', ch')
      ensures Underway(plan.count, plan.DoneBefore(plan.count), plan.LastBefore(plan.count), fat', data', ch')
    {
      ChunkBounds(plan, i);
      assert plan.Start(i) + plan.Length(i) == plan.Total();
    }

    lemma Finished(fat': seq<nat>, data': seq<seq<byte>>, ch': seq<nat>)
      requires Sound() && Underway(plan.count, plan.DoneBefore(plan.count), plan.LastBefore(plan.count), fat', data', ch')
      ensures Done(fat', data', ch')
    {
    }

    /** Only writes with enough space can run to their end: whatever they end in, its clusters were
        available. */
    lemma SpaceNeeded(fat': seq<nat>, data': seq<seq<byte>>, ch': seq<nat>)
      requires Sound() && Done(fat', data', ch')
      ensures EnoughSpace()
    {
      var taken := ch'[Kept()..];
      ChainsDistinct(fat', ch');
      DistinctCount(taken);
      forall c | c in Cells(taken) ensures c in AvailableSet() {
        var i :| Kept() <= i < |ch'| && ch'[i] == c;
      }
      Subset(Cells(taken), AvailableSet());
    }

    lemma EnoughToStart()
      requires Sound()
      ensures EnoughSpace() && plan.skip == |ch| ==> !NoneFree(l, fat)
    {
      if EnoughSpace() && plan.skip == |ch| {
        Unchanged(fat, ch);
        SpaceLeft(fat, ch);
      }
    }

    /** As long as the chain is not complete there is a free cluster. */
    lemma SpaceLeft(fat': seq<nat>, ch': seq<nat>)
      requires IsChain(fat, ch) && EnoughSpace() && Grown(fat', ch') && |ch'| < Length()
      ensures !NoneFree(l, fat')
    {
      var taken := ch'[Kept()..];
      ChainsDistinct(fat', ch');
      DistinctCount(taken);
      if AvailableSet() <= Cells(taken) {
        Subset(AvailableSet(), Cells(taken));
      } else {
        var c :| c in AvailableSet() && c !in Cells(taken);
        FreeWhileGrowing(fat', ch', c);
      }
    }
  }

  lemma {:induction false} Subset(a: set<nat>, b: set<nat>)
    requires a <= b
    ensures |a| <= |b|
  {
    assert b == a + (b - a);
  }

  /** The two table writes of the loop, whose statuses are dropped. */
  method LinkUnchecked(d: FatDevice, last: nat, c: nat)
    requires d.Ready() && c <= 0xFFFF_FFFF
    modifies d.Footprint()
    ensures d.Ready() && d.disk.faults >= old(d.disk.faults)
    ensures d.disk.faults == old(d.disk.faults) && EntryOnVolume(d.layout, old(d.Volume()), last) && EntryOnVolume(d.layout, old(d.Volume()), c) ==>
              d.Volume() == LinkPut(d.layout, old(d.Volume()), last, c)
    ensures d.disk.faults == old(d.disk.faults) && old(d.Valid()) && d.layout.InRange(last) && c < d.layout.entries ==>
              && d.Valid() && d.data == old(d.data) && d.fat == Linked(old(d.fat), last, c)
              && (old(d.fat == d.fatCopy) ==> d.fat == d.fatCopy)
  {
    var ignored := d.WriteFatEntry(last, c);
    ignored := d.WriteFatEntry(c, FAT_ENTRY_USED);
  }

  ghost predicate EntryOnVolume(l: Layout, volume: seq<byte>, c: nat) {
    l.FatAddress32(c) + 4 <= |volume|
  }

  /** Links a fresh cluster during the write loop. When the scan finds none, whatever it returns is
      linked all the same: entry 0, or one behind the tables. */
  method ExtendUnchecked(d: FatDevice, oldCluster: nat, ghost sound: bool, ghost call: Call, ghost ch: seq<nat>, ghost i: nat)
    returns (newFat: nat, r: int)
    requires d.Ready()
    requires sound ==> && d.Valid() && d.layout == call.l && call.Sound()
                       && i + 1 < call.plan.count && call.After(i, d.fat, d.data, ch) && oldCluster == ch[|ch| - 1]
    modifies d.Footprint()
    ensures d.Ready() && d.disk.faults >= old(d.disk.faults)
    ensures r != SUCCESS ==> r < 0
    ensures sound && d.disk.faults == old(d.disk.faults) && !NoneFree(d.layout, old(d.fat)) ==>
              && r == SUCCESS && d.Valid() && call.Before(i + 1, d.fat, d.data, ch + [newFat])
              && (old(d.fat == d.fatCopy) ==> d.fat == d.fatCopy)
    ensures sound && d.disk.faults == old(d.disk.faults) && NoneFree(d.layout, old(d.fat)) && r == SUCCESS ==>
              && newFat <= 0xFFFF_FFFF && ScanResult(d.layout, old(d.Volume()), newFat) && (newFat == 0 || newFat >= d.layout.entries)
              && d.Volume() == LinkPut(d.layout, old(d.Volume()), oldCluster, newFat)
              && (newFat == 0 ==> d.Valid() && d.data == old(d.data) && d.fat == Linked(old(d.fat), oldCluster, 0))
  {
    ghost var fat, volume := d.fat, d.Volume();
    newFat, r := d.GetFreeFatEntryCluster();
    if r < 0 { return; }
    if sound {
      LinkableHere(d, ch, newFat);
      if !NoneFree(d.layout, fat) { call.Longer(i, d.fat, d.data, ch, newFat); }
    }
    LinkUnchecked(d, oldCluster, newFat);
  }

  lemma LinkableHere(d: FatDevice, ch: seq<nat>, c: nat)
    requires d.Valid() && IsChain(d.fat, ch) && ScanResult(d.layout, d.Volume(), c)
    ensures d.layout.InRange(ch[|ch| - 1]) && EntryOnVolume(d.layout, d.Volume(), ch[|ch| - 1]) && EntryOnVolume(d.layout, d.Volume(), c)
  {
    ChainLink(d.fat, ch, |ch| - 1);
    NoWrap(d.layout, |d.Volume()|, ch[|ch| - 1]);
    NoWrap(d.layout, |d.Volume()|, 0);
  }

  /** What happens to the file when the scan returns 0: its last cluster, though written, is marked as
      free, so there is no chain any more, and the next chunk goes to two clusters in front of the first
      one. The scan after that hands out the same last cluster again, so that the chain is back, the
      volume full, and the chunk then written replaces the one that this cluster had got. */
  lemma FullVolume(call: Call, i: nat, fat': seq<nat>, data': seq<seq<byte>>, ch': seq<nat>)
    requires call.Sound() && i < call.plan.count && call.After(i, fat', data', ch') && NoneFree(call.l, fat')
    requires 2 * call.plan.cs <= call.l.dataClusterStartAddress < 0x1_0000_0000 && |fat'| > 0
    ensures var last, fat'' := ch'[|ch'| - 1], Linked(fat', ch'[|ch'| - 1], 0);
            && fat''[last] == FAT_ENTRY_FREE
            && (forall other :: IsChain(fat'', other) ==> last !in other)
            && (last < ScanLimit(call.l.totalSectorsBig) ==>
                  && IsLowestFree(call.l, fat'', last)
                  && Linked(fat'', 0, last) == fat'[0 := last]
                  && IsChain(Linked(fat'', 0, last), ch') && NoneFree(call.l, Linked(fat'', 0, last)))
    ensures call.l.DataAddress32(0) + 2 * call.plan.cs == call.l.dataClusterStartAddress
  {
    var last, fat'' := ch'[|ch'| - 1], Linked(fat', ch'[|ch'| - 1], 0);
    ChainLink(fat', ch', |ch'| - 1);
    ClusterZero(call.l);
    forall other | IsChain(fat'', other) ensures last !in other {
      if last in other {
        var k :| 0 <= k < |other| && other[k] == last;
        ChainLink(fat'', other, k);
      }
    }
    forall d: nat | IsFree(call.l, fat'', d) ensures last == d {
      assert !IsFree(call.l, fat', d);
    }
    StillFull(call.l, fat', ch', last);
  }

  /** An entry 0 that points somewhere changes neither the chain nor the free clusters. */
  lemma StillFull(l: Layout, fat: seq<nat>, ch: seq<nat>, c: nat)
    requires IsChain(fat, ch) && NoneFree(l, fat) && c > 0 && |fat| > 0
    ensures IsChain(fat[0 := c], ch) && NoneFree(l, fat[0 := c])
  {
    var fat' := fat[0 := c];
    forall d: nat ensures !IsFree(l, fat', d) {
      assert !IsFree(l, fat, d);
    }
  }

  /** Seek and write of one chunk. */
  method WriteChunk(d: FatDevice, cluster: nat, offset: nat, chunk: seq<byte>, ghost sound: bool, ghost call: Call, ghost ch: seq<nat>, ghost i: nat)
    returns (r: int)
    requires d.Ready()
    requires sound ==> && d.Valid() && d.layout == call.l && call.Sound()
                       && i < call.plan.count && call.Before(i, d.fat, d.data, ch) && cluster == ch[|ch| - 1]
                       && call.ChunkRange(i) && call.plan.Length(i) > 0
                       && offset == call.plan.Inner(i)
                       && chunk == call.input[call.plan.Start(i)..call.plan.Start(i) + call.plan.Length(i)]
    modifies d.Footprint()
    ensures d.Ready() && d.disk.faults >= old(d.disk.faults) && d.fat == old(d.fat) && d.fatCopy == old(d.fatCopy)
    ensures r != SUCCESS ==> r < 0
    ensures sound && d.disk.faults == old(d.disk.faults) ==>
              r == SUCCESS && d.Valid() && call.After(i, d.fat, d.data, ch) && d.fat[cluster] == FAT_ENTRY_USED
  {
    ghost var data := d.data;
    r := d.WriteCluster(cluster, offset, chunk);
    if sound && r == SUCCESS { call.Filled(i, d.fat, data, ch, d.data); }
  }

  /** What holds in front of chunk `i`, and behind the last one. */
  ghost predicate AtChunk(d: FatDevice, call: Call, ch: seq<nat>, i: nat, current: nat, last: nat)
    reads d.Footprint()
  {
    && d.Valid() && d.layout == call.l && call.Sound()
    && i <= call.plan.count
    && call.Underway(i, call.plan.DoneBefore(i), call.plan.LastBefore(i), d.fat, d.data, ch)
    && (i < call.plan.count ==> call.EnoughSpace() && current == last == ch[|ch| - 1])
  }

  /** One round of the write loop: a chunk, and the next cluster unless it was the last one. */
  method WriteRound(d: FatDevice, currCluster: nat, oldCluster: nat, offset: nat, chunk: seq<byte>, isLast: bool,
                    ghost sound: bool, ghost call: Call, ghost ch: seq<nat>, ghost i: nat)
    returns (current: nat, last: nat, r: int, ghost ch': seq<nat>)
    requires d.Ready()
    requires sound ==> && AtChunk(d, call, ch, i, currCluster, oldCluster)
                       && i < call.plan.count && isLast == (i + 1 == call.plan.count)
                       && call.ChunkRange(i) && call.plan.Length(i) > 0
                       && offset == call.plan.Inner(i)
                       && chunk == call.input[call.plan.Start(i)..call.plan.Start(i) + call.plan.Length(i)]
    modifies d.Footprint()
    ensures d.Ready() && d.disk.faults >= old(d.disk.faults)
    ensures r != SUCCESS ==> r < 0
    ensures sound && d.disk.faults == old(d.disk.faults) ==>
              && r == SUCCESS && AtChunk(d, call, ch', i + 1, current, last)
              && (old(d.fat == d.fatCopy) ==> d.fat == d.fatCopy)
  {
    ch', current, last := ch, currCluster, oldCluster;
    r := WriteChunk(d, currCluster, offset, chunk, sound, call, ch, i);
    if r < 0 { return; }
    current, last, r, ch' := NextCluster(d, currCluster, oldCluster, isLast, sound && d.disk.faults == old(d.disk.faults), call, ch, i);
  }

  /** The end of a round. */
  method NextCluster(d: FatDevice, currCluster: nat, oldCluster: nat, isLast: bool,
                     ghost sound: bool, ghost call: Call, ghost ch: seq<nat>, ghost i: nat)
    returns (current: nat, last: nat, r: int, ghost ch': seq<nat>)
    requires d.Ready()
    requires sound ==> && d.Valid() && d.layout == call.l && call.Sound() && call.EnoughSpace()
                       && i < call.plan.count && isLast == (i + 1 == call.plan.count) && call.After(i, d.fat, d.data, ch)
                       && currCluster == oldCluster == ch[|ch| - 1] && d.fat[currCluster] == FAT_ENTRY_USED
    modifies d.Footprint()
    ensures d.Ready() && d.disk.faults >= old(d.disk.faults)
    ensures r != SUCCESS ==> r < 0
    ensures sound && d.disk.faults == old(d.disk.faults) ==>
              && r == SUCCESS && AtChunk(d, call, ch', i + 1, current, last)
              && (old(d.fat == d.fatCopy) ==> d.fat == d.fatCopy)
  {
    ch', last := ch, oldCluster;
    current, r := d.GetFatEntry(currCluster);
    if r < 0 { return; }
    ghost var good := sound && d.disk.faults == old(d.disk.faults);
    if current == FAT_ENTRY_USED && !isLast {
      if good { call.SpaceLeft(d.fat, ch); }
      current, r := ExtendUnchecked(d, oldCluster, good, call, ch, i);
      if r < 0 { return; }
      last := current;
      ch' := ch + [current];
    } else if good {
      call.LastChunk(i, d.fat, d.data, ch);
    }
  }

  /** The counters of the loop in front of chunk `i`. */
  ghost predicate Counters(p: Plan, i: nat, totalWritten: int, chunk: int, clusterPos: int) {
    i < p.count ==> totalWritten == p.Start(i) && chunk == p.Length(i) && clusterPos == p.Inner(i)
  }

  /** The counters for the next chunk; its length is 16 bits wide. */
  method NextCounters(cs: nat, size: nat, isLast: bool, totalWritten: int, chunk: int, ghost call: Call, ghost i: nat)
    returns (total: int, next: int)
    requires call.Sound() && call.plan.cs == cs <= 0xFFFF && call.plan.size == size && i < call.plan.count
    requires isLast <==> i + 2 == call.plan.count
    requires totalWritten == call.plan.Start(i) && chunk == call.plan.Length(i)
    ensures Counters(call.plan, i + 1, total, next, 0)
  {
    if i + 1 < call.plan.count { call.NextChunk(i); }
    total := totalWritten + chunk;
    next := cs;
    if isLast { next := (size - total) % 0x1_0000; }
  }

  /** The loop of `writeFatFile` in front of chunk `i`. While nothing has failed, the call is on its
      way, and FATs that were equal (`same`) still are. */
  ghost predicate InLoop(d: FatDevice, call: Call, ch: seq<nat>, i: nat, current: nat, last: nat,
                         totalWritten: int, chunk: int, clusterPos: int, good: bool, same: bool)
    reads d.Footprint()
  {
    && d.Ready() && Counters(call.plan, i, totalWritten, chunk, clusterPos)
    && (good ==> AtChunk(d, call, ch, i, current, last) && (same ==> d.fat == d.fatCopy))
  }

  /** A round, and the counters behind it. */
  method WriteTurn(d: FatDevice, currCluster: nat, oldCluster: nat, clusterPos: int, totalWritten: int, chunk: int,
                   input: seq<byte>, size: nat, count: nat, i: nat, ghost good: bool, ghost same: bool, ghost call: Call, ghost ch: seq<nat>)
    returns (current: nat, last: nat, total: int, next: int, r: int, ghost ch': seq<nat>, ghost good': bool)
    requires call.Sound() && d.layout == call.l && call.plan.cs <= 0xFFFF
    requires call.input == input && call.plan.size == size && i < count == call.plan.count
    requires InLoop(d, call, ch, i, currCluster, oldCluster, totalWritten, chunk, clusterPos, good, same)
    modifies d.Footprint()
    ensures d.Ready() && d.disk.faults >= old(d.disk.faults)
    ensures if r == SUCCESS then InLoop(d, call, ch', i + 1, current, last, total, next, 0, good', same) else r < 0
    ensures good' == (good && d.disk.faults == old(d.disk.faults)) && (good' ==> r == SUCCESS)
  {
    call.ChunkInRange(i);
    total, next := totalWritten, chunk;
    current, last, r, ch' := WriteRound(d, currCluster, oldCluster, clusterPos, input[totalWritten..totalWritten + chunk],
                                        i + 1 == count, good, call, ch, i);
    good' := good && d.disk.faults == old(d.disk.faults);
    if r < 0 { return; }
    total, next := NextCounters(d.layout.clusterSize, size, i + 2 == count, totalWritten, chunk, call, i);
  }

  /** The loop of `writeFatFile`. */
  method WriteChunks(d: FatDevice, startCluster: nat, size: nat, startClusterPos: nat, first: nat, count: nat, input: seq<byte>,
                     ghost sound: bool, ghost call: Call, ghost ch: seq<nat>) returns (r: int, ghost ch': seq<nat>)
    requires d.Ready() && call.Sound() && d.layout == call.l && call.plan.cs <= 0xFFFF
    requires call.input == input && call.plan.size == size && call.plan.offset == startClusterPos
    requires call.plan.first == first && call.plan.count == count
    requires sound ==> AtChunk(d, call, ch, 0, startCluster, startCluster)
    modifies d.Footprint()
    ensures d.Ready() && d.disk.faults >= old(d.disk.faults)
    ensures sound && d.disk.faults == old(d.disk.faults) ==>
              && r == SUCCESS && d.Valid() && call.Done(d.fat, d.data, ch')
              && (old(d.fat == d.fatCopy) ==> d.fat == d.fatCopy)
  {
    r := SUCCESS;
    ch' := ch;
    var clusterPos, chunk, totalWritten := startClusterPos, first, 0;
    var currCluster, oldCluster := startCluster, startCluster;
    ghost var good, same := sound, d.fat == d.fatCopy;
    var i := 0;
    while i < count
      invariant 0 <= i <= count && r == SUCCESS && d.disk.faults >= old(d.disk.faults)
      invariant good == (sound && d.disk.faults == old(d.disk.faults))
      invariant InLoop(d, call, ch', i, currCluster, oldCluster, totalWritten, chunk, clusterPos, good, same)
    {
      currCluster, oldCluster, totalWritten, chunk, r, ch', good :=
        WriteTurn(d, currCluster, oldCluster, clusterPos, totalWritten, chunk, input, size, count, i, good, same, call, ch');
      if r < 0 { return; }
      clusterPos := 0;
      i := i + 1;
    }
    if good { call.Finished(d.fat, d.data, ch'); }
  }

  /** The call of `writeFatFile` on a volume in the state `fat`, `data`. */
  ghost function CallOf(l: Layout, fat: seq<nat>, data: seq<seq<byte>>, ch: seq<nat>, size: nat, startPos: nat, input: seq<byte>): Call
    requires l.clusterSize > 0
  {
    Call(l, fat, data, ch, WritePlan(l.clusterSize, startPos, size), input)
  }

  lemma SoundCall(d: FatDevice, ch: seq<nat>, size: nat, startPos: nat, input: seq<byte>)
    requires d.Valid() && IsChain(d.fat, ch) && size <= |input|
    requires size == 0 && startPos % d.layout.clusterSize > 0 ==> d.layout.clusterSize - startPos % d.layout.clusterSize <= |input|
    ensures CallOf(d.layout, d.fat, d.data, ch, size, startPos, input).Sound()
    ensures CallOf(d.layout, d.fat, d.data, ch, size, startPos, input).plan.Position() == startPos
  {
    ClusterSizes(d.layout, d.Volume(), d.fat, d.fatCopy, d.data);
    WritePlanSound(d.layout.clusterSize, startPos, size);
    FirstChunkWithin(d.layout.clusterSize, startPos, size, |input|);
  }

  /** The first chunk stays in the input; for an empty write it reaches behind it. */
  lemma FirstChunkWithin(cs: nat, startPos: nat, size: nat, available: nat)
    requires cs > 0 && size <= available && (size == 0 && startPos % cs > 0 ==> cs - startPos % cs <= available)
    ensures startPos % cs + size > 0 ==> FirstChunk(cs, startPos % cs, size) <= available
    ensures size > 0 ==> FirstChunk(cs, startPos % cs, size) <= size
  {
    ChunkPlan(cs, startPos % cs, size);
    FirstChunkValue(cs, startPos % cs, size);
    if size == 0 { DivUnique(0, 0, cs); }
    TimesIsProduct(0, cs);
  }

  /** The file ends where the write starts, and there is no cluster to append. */
  ghost predicate NoCluster(call: Call) {
    call.plan.skip == |call.ch| && NoneFree(call.l, call.fat)
  }

  /** The part of `writeFatFile` in front of its loop that touches the disk. */
  method PrepareFile(d: FatDevice, startCluster: nat, clustersToSkip: nat, ghost call: Call) returns (start: nat, r: int)
    requires d.Valid() && call.Sound() && call.l == d.layout && call.fat == d.fat && call.data == d.data
    requires startCluster == call.ch[0] && clustersToSkip == call.plan.skip
    modifies d.Footprint()
    ensures d.Ready() && d.disk.faults >= old(d.disk.faults)
    ensures r == SUCCESS ==> d.disk.faults == old(d.disk.faults) && clustersToSkip <= |call.ch|
    ensures r != SUCCESS ==> r < 0
    ensures d.disk.faults == old(d.disk.faults) && !NoCluster(call) ==>
              if clustersToSkip > |call.ch| then
                r == -ENFOUND && d.Valid() && d.fat == old(d.fat) && d.fatCopy == old(d.fatCopy) && d.data == old(d.data)
              else
                && r == SUCCESS && d.Valid() && (old(d.fat == d.fatCopy) ==> d.fat == d.fatCopy)
                && start == call.FirstChain(start)[|call.FirstChain(start)| - 1]
                && call.Before(0, d.fat, d.data, call.FirstChain(start))
  {
    start, r := FindStart(d, startCluster, clustersToSkip, call.ch);
    if r < 0 { return; }
    ghost var before, sound := d.fat, !NoCluster(call);
    if sound { call.Startable(before, start); }
    r := UnlinkFatChain(d, start, sound);
    if r < 0 { return; }
    if sound { call.Started(before, start, d.fat); }
  }

  /** The arithmetic of `writeFatFile`. */
  method CutIntoChunks(cs: nat, size: nat, startPos: nat) returns (startClusterPos: nat, clustersToWrite: nat, clustersToSkip: nat, firstChunk: nat)
    requires cs > 0
    ensures Plan(cs, clustersToSkip, startClusterPos, size, clustersToWrite, firstChunk) == WritePlan(cs, startPos, size)
  {
    startClusterPos := startPos % cs;
    clustersToWrite := (startClusterPos + size) / cs;
    if (startClusterPos + size) % cs != 0 { clustersToWrite := clustersToWrite + 1; }
    clustersToSkip := startPos / cs;
    FirstChunkValue(cs, startClusterPos, size);
    firstChunk := size % cs;
    if firstChunk == 0 { firstChunk := cs; }
    if firstChunk + startClusterPos > cs {
      firstChunk := firstChunk - (firstChunk + startClusterPos) % cs;
    }
  }

  /** Cuts the file behind the cluster the write starts in, fills the rest of it and appends
      clusters for the remaining bytes. The scan for a free cluster is not tested for failure, so
      without enough space the volume is left in some other state. */
  method WriteFatFile(d: FatDevice, startCluster: nat, size: nat, startPos: nat, input: seq<byte>, ghost ch: seq<nat>)
    returns (r: int, ghost ch': seq<nat>)
    requires d.Valid() && IsChain(d.fat, ch) && startCluster == ch[0]
    requires startPos + size <= 0xFFFF_FFFF && size <= |input|
    requires size == 0 && startPos % d.layout.clusterSize > 0 ==> d.layout.clusterSize - startPos % d.layout.clusterSize <= |input|
    modifies d.Footprint()
    ensures d.Ready()
    ensures var call := CallOf(d.layout, old(d.fat), old(d.data), ch, size, startPos, input);
            && call.Sound()
            && (d.disk.faults == old(d.disk.faults) && call.plan.skip > |ch| ==>
                  r == -ENFOUND && d.Valid() && d.fat == old(d.fat) && d.fatCopy == old(d.fatCopy) && d.data == old(d.data))
            && (d.disk.faults == old(d.disk.faults) && call.plan.skip <= |ch| && call.EnoughSpace() ==>
                  && r == SUCCESS && d.Valid() && call.Done(d.fat, d.data, ch')
                  && (old(d.fat == d.fatCopy) ==> d.fat == d.fatCopy))
  {
    ghost var call := CallOf(d.layout, d.fat, d.data, ch, size, startPos, input);
    SoundCall(d, ch, size, startPos, input);
    call.EnoughToStart();
    var cs := d.layout.clusterSize;
    var startClusterPos, clustersToWrite, clustersToSkip, firstChunk := CutIntoChunks(cs, size, startPos);
    ch' := ch;
    var start;
    start, r := PrepareFile(d, startCluster, clustersToSkip, call);
    if r < 0 { return; }

    ghost var sound := d.disk.faults == old(d.disk.faults) && call.EnoughSpace();
    r, ch' := WriteChunks(d, start, size, startClusterPos, firstChunk, clustersToWrite, input,
                          sound, call, call.FirstChain(start));
  }
}
