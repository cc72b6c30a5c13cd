/** The chain and file operations of `driver/fat32.c`. */
module Fat32 {
  import opened Bytes
  import opened FatLayout
  import opened FatChains
  import opened FatDevices

  /** Clusters that are neither free nor on the chain keep their entry and their bytes. */
  ghost predicate OthersKept(fat: seq<nat>, data: seq<seq<byte>>, ch: seq<nat>, fat': seq<nat>, data': seq<seq<byte>>) {
    && |fat'| == |fat| == |data| == |data'|
    && forall c: nat {:trigger fat'[c]} {:trigger data'[c]} :: c < |fat| && c !in ch && fat[c] != FAT_ENTRY_FREE ==>
         fat'[c] == fat[c] && data'[c] == data[c]
  }

  lemma {:induction false} BoundedSet(s: set<nat>, n: nat)
    requires forall x :: x in s ==> x < n
    ensures |s| <= n
    decreases n
  {
    if n == 0 {
      assert s == {};
    } else {
      BoundedSet(s - {n - 1}, n - 1);
    }
  }

  /** The body of the unlink loop. */
  method FreeEntry(d: FatDevice, c: nat) returns (next: nat, r: int)
    requires d.Valid() && d.layout.InRange(c)
    modifies d.Footprint()
    ensures d.Valid() && d.data == old(d.data)
    ensures r == SUCCESS ==> && d.disk.faults == old(d.disk.faults)
                             && next == old(d.fat)[c] && d.fat == old(d.fat)[c := FAT_ENTRY_FREE]
                             && (old(d.fat == d.fatCopy) ==> d.fat == d.fatCopy)
    ensures r != SUCCESS ==> && r < 0 && d.disk.faults > old(d.disk.faults)
                             && (d.fat == old(d.fat) || d.fat == old(d.fat)[c := FAT_ENTRY_FREE])
  {
    next, r := d.GetFatEntry(c);
    if r < 0 { return; }
    r := d.WriteFatEntry(c, FAT_ENTRY_FREE);
  }

  /** Frees everything behind `cluster` and makes it the end of its chain. The loop ends on any FAT
      whose links are in range, also on a cyclic one. When the tables are not `sound`, `cluster` must
      read as the end of a chain, and all it does is to write that again. */
  method UnlinkFatChain(d: FatDevice, cluster: nat, ghost sound: bool) returns (r: int)
    requires d.Ready()
    requires if sound then d.Valid() && d.layout.InRange(cluster) && LinksInRange(d.fat, cluster) else ReadsAsEnd(d.layout, d.Volume(), cluster)
    modifies d.Footprint()
    ensures d.Ready() && d.disk.faults >= old(d.disk.faults)
    ensures r == SUCCESS ==> d.disk.faults == old(d.disk.faults)
    ensures r != SUCCESS ==> r < 0
    ensures sound ==>
              && d.Valid() && d.data == old(d.data)
              && (r == SUCCESS ==> Unlinked(old(d.fat), cluster, d.fat) && (old(d.fat == d.fatCopy) ==> d.fat == d.fatCopy))
              && (r != SUCCESS ==> d.disk.faults > old(d.disk.faults))
              && KeptBefore(old(d.fat), cluster, d.fat)
    ensures !sound && r == SUCCESS ==> d.Volume() == FatPut(d.layout, old(d.Volume()), cluster, FAT_ENTRY_USED)
  {
    ghost var fat, volume := d.fat, d.Volume();
    ghost var walk: seq<nat> := [];
    var fatEntry;
    fatEntry, r := d.GetFatEntry(cluster);
    if r < 0 { return; }
    if sound { UnlinkStart(fat, cluster); }

    while IsLink(fatEntry)
      invariant d.Ready() && r == SUCCESS && d.disk.faults == old(d.disk.faults)
      invariant sound ==> Unlinking(d, fat, old(d.data), cluster, walk, fatEntry) && (old(d.fat == d.fatCopy) ==> d.fat == d.fatCopy)
      invariant !sound ==> !IsLink(fatEntry) && d.Volume() == volume
      decreases if sound then |fat| - |walk| else 0, if IsLink(fatEntry) then 1 else 0
    {
      UnlinkStep(fat, cluster, walk, fatEntry);
      var temp := fatEntry;
      fatEntry, r := FreeEntry(d, temp);
      if r < 0 { return; }
      if temp !in walk { walk := walk + [temp]; }
    }

    if sound { UnlinkEnd(fat, cluster, walk, fatEntry); }
    r := d.WriteFatEntry(cluster, FAT_ENTRY_USED);
  }

  /** The state of its loop: the clusters in `walk` have been freed, `next` was read last. */
  ghost predicate Unlinking(d: FatDevice, fat: seq<nat>, data: seq<seq<byte>>, cluster: nat, walk: seq<nat>, next: nat)
    reads d.Footprint()
  {
    && d.Valid() && d.data == data && cluster < |fat| && LinksInRange(fat, cluster)
    && Freed(fat, cluster, walk, next) && InTable(fat, walk) && |walk| <= |fat|
    && d.fat == Cleared(fat, walk)
  }

  ghost predicate InTable(fat: seq<nat>, walk: seq<nat>) {
    forall x :: x in walk ==> 2 <= x < |fat|
  }

  /** Only clusters behind `cluster` differ. */
  ghost predicate KeptBefore(fat: seq<nat>, cluster: nat, fat': seq<nat>) {
    && |fat'| == |fat|
    && forall x: nat {:trigger fat'[x]} :: x < |fat| && x != cluster && !Follows(fat, cluster, x) ==> fat'[x] == fat[x]
  }

  lemma UnlinkStart(fat: seq<nat>, cluster: nat)
    requires cluster < |fat|
    ensures Freed(fat, cluster, [], fat[cluster]) && Cleared(fat, []) == fat
  {
    assert Follow(fat, cluster, 0) == cluster;
    assert Follow(fat, cluster, 1) == fat[cluster];
  }

  lemma UnlinkStep(fat: seq<nat>, cluster: nat, walk: seq<nat>, next: nat)
    requires LinksInRange(fat, cluster) && Freed(fat, cluster, walk, next) && InTable(fat, walk) && IsLink(next)
    ensures 2 <= next < |fat|
    ensures var walk' := if next in walk then walk else walk + [next];
            && InTable(fat, walk') && |walk'| <= |fat|
            && Freed(fat, cluster, walk', Cleared(fat, walk)[next])
            && Cleared(fat, walk)[next := FAT_ENTRY_FREE] == Cleared(fat, walk')
            && KeptBefore(fat, cluster, Cleared(fat, walk)) && KeptBefore(fat, cluster, Cleared(fat, walk'))
  {
    FreedStep(fat, cluster, walk, next);
    var walk' := if next in walk then walk else walk + [next];
    DistinctCount(walk');
    BoundedSet(Cells(walk'), |fat|);
    assert Follow(fat, cluster, |walk| + 1) == next;
    forall x: nat | x in walk' ensures Follows(fat, cluster, x) {
      if x in walk {
        var i :| 0 <= i < |walk| && walk[i] == x;
        WalkFollows(fat, cluster, walk, next, i);
      }
    }
  }

  lemma UnlinkEnd(fat: seq<nat>, cluster: nat, walk: seq<nat>, next: nat)
    requires cluster < |fat| && Freed(fat, cluster, walk, next) && InTable(fat, walk) && !IsLink(next)
    ensures Unlinked(fat, cluster, Cleared(fat, walk)[cluster := FAT_ENTRY_USED])
    ensures KeptBefore(fat, cluster, Cleared(fat, walk)) && KeptBefore(fat, cluster, Cleared(fat, walk)[cluster := FAT_ENTRY_USED])
  {
    FreedAll(fat, cluster, walk, next);
  }

  // ----- growing

  /** The FAT after `c` was linked behind `last`. */
  function Linked(fat: seq<nat>, last: nat, c: nat): seq<nat>
    requires last < |fat| && c < |fat|
  {
    fat[last := c][c := FAT_ENTRY_USED]
  }

  /** The two entries that change when `c` is linked behind `last`. */
  method LinkCluster(d: FatDevice, last: nat, c: nat) returns (r: int)
    requires d.Ready() && c <= 0xFFFF_FFFF
    modifies d.Footprint()
    ensures d.Ready() && d.disk.faults >= old(d.disk.faults)
    ensures r == SUCCESS ==> d.disk.faults == old(d.disk.faults) && d.Volume() == LinkPut(d.layout, old(d.Volume()), last, c)
    ensures r != SUCCESS ==> r < 0
    ensures old(d.Valid()) && d.layout.InRange(last) && c < d.layout.entries ==>
              && d.Valid() && d.data == old(d.data)
              && (d.fat == old(d.fat) || d.fat == old(d.fat)[last := c] || d.fat == Linked(old(d.fat), last, c))
              && (if r == SUCCESS then d.fat == Linked(old(d.fat), last, c) else d.disk.faults > old(d.disk.faults))
              && (r == SUCCESS && old(d.fat == d.fatCopy) ==> d.fat == d.fatCopy)
  {
    r := d.WriteFatEntry(last, c);
    if r < 0 { return; }
    r := d.WriteFatEntry(c, FAT_ENTRY_USED);
  }

  /** Takes the lowest free cluster and links it behind the last one of a chain. A full volume is
      not noticed: the scan then returns 0, or an entry behind the table, and that is linked. */
  method AppendCluster(d: FatDevice, last: nat, ghost ch: seq<nat>) returns (c: nat, r: int)
    requires d.Valid() && IsChain(d.fat, ch) && last == ch[|ch| - 1]
    modifies d.Footprint()
    ensures d.Ready() && d.disk.faults >= old(d.disk.faults)
    ensures r == SUCCESS ==> d.disk.faults == old(d.disk.faults)
    ensures r != SUCCESS ==> r < 0
    ensures r == SUCCESS ==> && c <= 0xFFFF_FFFF && ScanResult(d.layout, old(d.Volume()), c)
                             && d.Volume() == LinkPut(d.layout, old(d.Volume()), last, c)
                             && ReadsAsEnd(d.layout, d.Volume(), c)
    ensures r == SUCCESS && c < d.layout.entries ==>
              && d.Valid() && d.data == old(d.data) && d.fat == Linked(old(d.fat), last, c)
              && (old(d.fat == d.fatCopy) ==> d.fat == d.fatCopy)
    ensures !NoneFree(d.layout, old(d.fat)) ==>
              && d.Valid() && d.data == old(d.data)
              && OthersKept(old(d.fat), old(d.data), ch, d.fat, d.data)
              && (r != SUCCESS ==> d.disk.faults > old(d.disk.faults))
              && (r == SUCCESS ==> IsLowestFree(d.layout, old(d.fat), c))
    ensures NoneFree(d.layout, old(d.fat)) && r == SUCCESS ==> c == 0 || c >= d.layout.entries
  {
    ghost var volume := d.Volume();
    c, r := d.GetFreeFatEntryCluster();
    if r < 0 { return; }
    ChainLink(d.fat, ch, |ch| - 1);
    r := LinkCluster(d, last, c);
    LinkedEnd(d.layout, volume, |volume|, last, c);
  }

  function Zeros(n: nat): (b: seq<byte>)
    ensures |b| == n && forall i :: 0 <= i < n ==> b[i] == 0
  {
    seq(n, _ => 0)
  }

  /** Zeros all over a cluster. */
  method ZeroCluster(d: FatDevice, c: nat) returns (r: int)
    requires d.Ready()
    modifies d.Footprint()
    ensures d.Ready() && d.disk.faults >= old(d.disk.faults)
    ensures r == SUCCESS ==> d.disk.faults == old(d.disk.faults)
                             && d.Volume() == Put(old(d.Volume()), d.layout.DataAddress32(c), Zeros(d.layout.clusterSize))
    ensures r != SUCCESS ==> r < 0
    ensures old(d.Valid()) && d.layout.InRange(c) ==>
              && d.Valid() && d.fat == old(d.fat) && d.fatCopy == old(d.fatCopy)
              && (if r == SUCCESS then d.data == old(d.data)[c := Zeros(d.layout.clusterSize)]
                  else d.data == old(d.data) && d.disk.faults > old(d.disk.faults))
  {
    ghost var data := d.data;
    r := d.WriteCluster(c, 0, Zeros(d.layout.clusterSize));
    if r == SUCCESS && c < |data| { ZerosEverywhere(data[c], d.layout.clusterSize); }
  }

  lemma ZerosEverywhere(own: seq<byte>, size: nat)
    ensures |own| == size ==> Splice(own, 0, Zeros(size)) == Zeros(size)
  {
  }

  /** `makeDirBigger`: one more cluster, filled with zeros. */
  method MakeDirBigger(d: FatDevice, endCluster: nat, ghost ch: seq<nat>) returns (newCluster: int)
    requires d.Valid() && IsChain(d.fat, ch) && endCluster == ch[|ch| - 1]
    modifies d.Footprint()
    ensures d.Ready()
    ensures NoneFree(d.layout, old(d.fat)) && ScanLimit(d.layout.totalSectorsBig) <= d.layout.entries && d.disk.faults == old(d.disk.faults) ==>
              newCluster == -EDISKSPACE && d.Valid() && d.fat == old(d.fat) && d.data == old(d.data)
    ensures !NoneFree(d.layout, old(d.fat)) ==>
              && d.Valid()
              && OthersKept(old(d.fat), old(d.data), ch, d.fat, d.data)
              && (newCluster < 0 <==> d.disk.faults > old(d.disk.faults))
              && (newCluster >= 0 ==>
                    && IsLowestFree(d.layout, old(d.fat), newCluster)
                    && Rewritten(old(d.fat), ch, d.fat, ch + [newCluster])
                    && d.data == old(d.data)[newCluster := Zeros(d.layout.clusterSize)]
                    && (old(d.fat == d.fatCopy) ==> d.fat == d.fatCopy))
    ensures newCluster >= 0 ==>
              && 0 < newCluster <= 0xFFFF_FFFF && ScanResult(d.layout, old(d.Volume()), newCluster)
              && d.Volume() == Put(LinkPut(d.layout, old(d.Volume()), endCluster, newCluster), d.layout.DataAddress32(newCluster), Zeros(d.layout.clusterSize))
    ensures NoneFree(d.layout, old(d.fat)) && newCluster >= 0 ==> newCluster >= d.layout.entries
  {
    ghost var fat, data := d.fat, d.data;
    ChainLink(fat, ch, |ch| - 1);
    var c, r := d.GetFreeFatEntryCluster();
    if r < 0 { return r; }
    if c == 0 { return -EDISKSPACE; }
    r := LinkCluster(d, endCluster, c);
    if r == SUCCESS { r := ZeroCluster(d, c); }
    if !NoneFree(d.layout, fat) {
      OthersWhileLinking(fat, data, ch, c, d.fat, d.data, Zeros(d.layout.clusterSize));
      Extended(fat, ch, c);
    }
    if r < 0 { return r; }
    return c;
  }

  lemma OthersWhileLinking(fat: seq<nat>, data: seq<seq<byte>>, ch: seq<nat>, c: nat, fat': seq<nat>, data': seq<seq<byte>>, own: seq<byte>)
    requires IsChain(fat, ch) && c < |fat| == |data| && fat[c] == FAT_ENTRY_FREE
    requires var last := ch[|ch| - 1]; last < |fat| && (fat' == fat || fat' == fat[last := c] || fat' == Linked(fat, last, c))
    requires data' == data || data' == data[c := own]
    ensures OthersKept(fat, data, ch, fat', data')
  {
    assert ch[|ch| - 1] in ch;
  }

  /** The first cluster of a file that has none, as `writeFile` and `createFileEntryAtAbsoluteAddress`
      allocate it. */
  method StartChain(d: FatDevice) returns (c: nat, r: int)
    requires d.Valid()
    modifies d.Footprint()
    ensures d.Ready() && r <= SUCCESS
    ensures NoneFree(d.layout, old(d.fat)) && ScanLimit(d.layout.totalSectorsBig) <= d.layout.entries ==>
              r == -EDISKSPACE && d.Valid() && d.fat == old(d.fat) && d.data == old(d.data) && d.fatCopy == old(d.fatCopy)
    ensures !NoneFree(d.layout, old(d.fat)) ==>
              && d.Valid() && d.data == old(d.data)
              && OthersKept(old(d.fat), old(d.data), [], d.fat, d.data)
              && (r == SUCCESS <==> d.disk.faults == old(d.disk.faults))
              && (r == SUCCESS ==>
                    && IsLowestFree(d.layout, old(d.fat), c)
                    && Rewritten(old(d.fat), [], d.fat, [c])
                    && (old(d.fat == d.fatCopy) ==> d.fat == d.fatCopy))
    ensures r == SUCCESS ==> && 0 < c <= 0xFFFF_FFFF && ScanResult(d.layout, old(d.Volume()), c)
                             && d.Volume() == FatPut(d.layout, old(d.Volume()), c, FAT_ENTRY_USED)
    ensures NoneFree(d.layout, old(d.fat)) && r == SUCCESS ==> c >= d.layout.entries
  {
    ghost var fat := d.fat;
    c, r := d.GetFreeFatEntryCluster();
    if c == 0 { return 0, -EDISKSPACE; }
    r := d.WriteFatEntry(c, FAT_ENTRY_USED);
    if r == SUCCESS && !NoneFree(d.layout, fat) {
      Started(fat, c);
    }
  }

  // ----- finding the cluster a write starts in

  /** Follows `skip` links from the start of a file; one link too many appends a cluster, more are
      an error. */
  method FindStart(d: FatDevice, startCluster: nat, skip: nat, ghost ch: seq<nat>) returns (start: nat, r: int)
    requires d.Valid() && IsChain(d.fat, ch) && startCluster == ch[0]
    modifies d.Footprint()
    ensures d.Ready() && d.disk.faults >= old(d.disk.faults)
    ensures r == SUCCESS ==> d.disk.faults == old(d.disk.faults)
    ensures r != SUCCESS ==> r < 0
    ensures skip != |ch| ==>
              && d.Valid() && d.fat == old(d.fat) && d.data == old(d.data) && d.fatCopy == old(d.fatCopy)
              && (d.disk.faults == old(d.disk.faults) ==> r == if skip < |ch| then SUCCESS else -ENFOUND)
              && (r == SUCCESS ==> start == ch[skip])
    ensures skip == |ch| && !NoneFree(d.layout, old(d.fat)) ==>
              && d.Valid() && d.data == old(d.data)
              && (d.disk.faults == old(d.disk.faults) ==> r == SUCCESS)
              && (r == SUCCESS ==>
                    && IsLowestFree(d.layout, old(d.fat), start)
                    && d.fat == Linked(old(d.fat), ch[|ch| - 1], start)
                    && (old(d.fat == d.fatCopy) ==> d.fat == d.fatCopy))
    ensures skip == |ch| && r == SUCCESS ==>
              && start <= 0xFFFF_FFFF && ScanResult(d.layout, old(d.Volume()), start)
              && d.Volume() == LinkPut(d.layout, old(d.Volume()), ch[|ch| - 1], start)
              && ReadsAsEnd(d.layout, d.Volume(), start)
              && (NoneFree(d.layout, old(d.fat)) ==> start == 0 || start >= d.layout.entries)
  {
    start, r := 0, SUCCESS;
    var toSkip := skip;
    var fatEntry, oldCluster := startCluster, startCluster;
    while toSkip > 0
      invariant d.Valid() && d.fat == old(d.fat) && d.data == old(d.data) && d.fatCopy == old(d.fatCopy)
      invariant d.disk.faults == old(d.disk.faults) && r == SUCCESS && d.Volume() == old(d.Volume())
      invariant 0 <= toSkip <= skip && skip - toSkip < |ch|
      invariant fatEntry == ch[skip - toSkip]
    {
      ChainLink(d.fat, ch, skip - toSkip);
      oldCluster := fatEntry;
      fatEntry, r := d.GetFatEntry(fatEntry);
      if r < 0 { return; }
      assert IsLink(fatEntry) <==> skip - toSkip + 1 < |ch|;
      if !IsLink(fatEntry) { break; }
      toSkip := toSkip - 1;
    }
    if IsLink(fatEntry) { oldCluster := fatEntry; }

    if toSkip == 1 {
      start, r := AppendCluster(d, oldCluster, ch);
    } else if toSkip != 0 {
      r := -ENFOUND;
    } else {
      start := oldCluster;
    }
  }
}
