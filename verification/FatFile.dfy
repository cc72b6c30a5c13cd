/** `writeFile` as a whole: what it does to the files of a volume. */
module FatFiles {
  import opened Bytes
  import opened FatLayout
  import opened FatChains
  import opened FatContent
  import opened FatDevices
  import opened Fat32
  import opened FatWrites
  import opened FatTheorems
  import opened FatReadPlans
  import opened FatReads
  import opened FatReadsExact

  /** A volume with its files, by first cluster. */
  datatype FileSystem = FileSystem(fat: seq<nat>, data: seq<seq<byte>>, chains: map<nat, seq<nat>>)
  {
    ghost predicate Ok() {
      Forest(fat, chains) && |data| == |fat|
    }

    /** Clusters of a file; none when there is no such file. */
    function Clusters(s: nat): seq<nat> {
      if s in chains then chains[s] else []
    }

    ghost predicate OnVolume(s: nat) {
      forall i :: 0 <= i < |Clusters(s)| ==> Clusters(s)[i] < |data|
    }

    ghost function FileBytes(s: nat): seq<byte> {
      if OnVolume(s) then Content(data, Clusters(s)) else []
    }

    /** There is enough space for a write to file `s`: in the clusters that are free, and in those that
        the write itself cuts off the file. */
    ghost predicate Room(l: Layout, s: nat, p: Plan) {
      Call(l, fat, data, Clusters(s), p, []).EnoughSpace()
    }
  }

  /** File `t` has the same clusters and bytes. */
  ghost predicate SameFile(a: FileSystem, b: FileSystem, t: nat) {
    b.Clusters(t) == a.Clusters(t) && b.FileBytes(t) == a.FileBytes(t)
  }

  /** Only file `s` changed: every other file is the same, and free clusters and those of `s` add up
      to what they did. */
  ghost predicate OnlyChanged(a: FileSystem, s: nat, b: FileSystem) {
    && b.Ok() && b.chains.Keys == a.chains.Keys + {s}
    && (forall t {:trigger SameFile(a, b, t)} :: t in a.chains && t != s ==> SameFile(a, b, t))
    && |FreeClusters(b.fat)| + |b.Clusters(s)| == |FreeClusters(a.fat)| + |a.Clusters(s)|
  }

  /** File `s` became its old bytes in front of `position` followed by `bytes`. */
  ghost predicate BytesPut(a: FileSystem, s: nat, position: nat, bytes: seq<byte>, b: FileSystem) {
    && position <= |a.FileBytes(s)| && position + |bytes| <= |b.FileBytes(s)|
    && b.FileBytes(s)[..position + |bytes|] == a.FileBytes(s)[..position] + bytes
  }

  /** That, and nothing else. */
  ghost predicate Replaced(a: FileSystem, s: nat, position: nat, bytes: seq<byte>, b: FileSystem) {
    OnlyChanged(a, s, b) && BytesPut(a, s, position, bytes, b)
  }

  lemma ChainOnVolume(v: FileSystem, s: nat)
    requires v.Ok() && s in v.chains
    ensures IsChain(v.fat, v.chains[s]) && v.chains[s][0] == s && v.OnVolume(s) && s >= 2 && v.fat[s] != FAT_ENTRY_FREE
  {
    ChainLink(v.fat, v.chains[s], 0);
  }

  /** A finished write, seen from the files. */
  lemma WrittenFile(v: FileSystem, s: nat, call: Call, fat': seq<nat>, data': seq<seq<byte>>, ch': seq<nat>)
    requires v.Ok() && s in v.chains && call.Sound() && call.Done(fat', data', ch')
    requires call.fat == v.fat && call.data == v.data && call.ch == v.chains[s]
    ensures OnlyChanged(v, s, FileSystem(fat', data', v.chains[s := ch']))
    ensures call.plan.Position() <= |v.FileBytes(s)| && call.plan.Fills() ==>
              BytesPut(v, s, call.plan.Position(), call.input[..call.plan.size], FileSystem(fat', data', v.chains[s := ch']))
  {
    var b := FileSystem(fat', data', v.chains[s := ch']);
    OthersWhileWriting(v, s, call, fat', data', ch', b);
    WriteConservesClusters(call, fat', data', ch');
    OneChanged(v, s, b, |ch'|, |call.ch|);
    if call.plan.Position() <= |v.FileBytes(s)| && call.plan.Fills() {
      ItselfWhileWriting(v, s, call, fat', data', ch');
    }
  }

  lemma OneChanged(v: FileSystem, s: nat, b: FileSystem, after: nat, before: nat)
    requires s in v.chains && s in b.chains && b.Ok() && b.chains == v.chains[s := b.chains[s]]
    requires forall t {:trigger SameFile(v, b, t)} :: t in v.chains && t != s ==> SameFile(v, b, t)
    requires |FreeClusters(b.fat)| + after == |FreeClusters(v.fat)| + before
    requires after == |b.chains[s]| && before == |v.chains[s]|
    ensures OnlyChanged(v, s, b)
  {
    assert b.chains.Keys == v.chains.Keys + {s};
  }

  lemma ItselfWhileWriting(v: FileSystem, s: nat, call: Call, fat': seq<nat>, data': seq<seq<byte>>, ch': seq<nat>)
    requires v.Ok() && s in v.chains && call.Sound() && call.Done(fat', data', ch')
    requires call.fat == v.fat && call.data == v.data && call.ch == v.chains[s]
    requires call.plan.Position() <= |v.FileBytes(s)| && call.plan.Fills()
    ensures BytesPut(v, s, call.plan.Position(), call.input[..call.plan.size], FileSystem(fat', data', v.chains[s := ch']))
  {
    ChainOnVolume(v, s);
    WriteIsSplice(call, data', ch');
    FileIs(v, s, call.ch);
    FileIs(FileSystem(fat', data', v.chains[s := ch']), s, ch');
  }

  lemma FileIs(v: FileSystem, s: nat, ch: seq<nat>)
    requires s in v.chains && v.chains[s] == ch && forall i :: 0 <= i < |ch| ==> ch[i] < |v.data|
    ensures v.FileBytes(s) == Content(v.data, ch)
  {
  }

  lemma OthersWhileWriting(v: FileSystem, s: nat, call: Call, fat': seq<nat>, data': seq<seq<byte>>, ch': seq<nat>, b: FileSystem)
    requires v.Ok() && s in v.chains && call.Sound() && call.Done(fat', data', ch')
    requires call.fat == v.fat && call.data == v.data && call.ch == v.chains[s] && b == FileSystem(fat', data', v.chains[s := ch'])
    ensures b.Ok() && forall t {:trigger SameFile(v, b, t)} :: t in v.chains && t != s ==> SameFile(v, b, t)
  {
    ChainOnVolume(v, s);
    OtherFilesKept(call, fat', data', ch', v.chains);
    assert b.Ok();
    forall t | t in v.chains && t != s ensures SameFile(v, b, t) {
      OtherWhileWriting(v, s, b, t);
    }
  }

  lemma OtherWhileWriting(v: FileSystem, s: nat, b: FileSystem, t: nat)
    requires v.Ok() && b.Ok() && t in v.chains && t != s && s in b.chains && b.chains == v.chains[s := b.chains[s]]
    requires forall i :: 0 <= i < |v.chains[t]| ==> v.chains[t][i] < |v.data| && v.chains[t][i] < |b.data|
    requires Content(b.data, v.chains[t]) == Content(v.data, v.chains[t])
    ensures SameFile(v, b, t)
  {
  }

  /** A new file of one cluster. */
  lemma StartedFile(v: FileSystem, c: nat, fat': seq<nat>)
    requires v.Ok() && c < |v.fat| && v.fat[c] == FAT_ENTRY_FREE && Rewritten(v.fat, [], fat', [c])
    ensures c !in v.chains && FileSystem(fat', v.data, v.chains[c := [c]]).Ok()
    ensures |FreeClusters(fat')| + 1 == |FreeClusters(v.fat)|
  {
    if c in v.chains { ChainOnVolume(v, c); }
    ForestKept(v.fat, v.chains, c, [], fat', [c]);
    ClustersConserved(v.fat, [], fat', [c]);
  }

  lemma NewFileWritten(a: FileSystem, c: nat, v: FileSystem, b: FileSystem)
    requires a.Ok() && c < |a.fat| && a.fat[c] == FAT_ENTRY_FREE && Rewritten(a.fat, [], v.fat, [c])
    requires v == FileSystem(v.fat, a.data, a.chains[c := [c]]) && OnlyChanged(v, c, b)
    ensures OnlyChanged(a, c, b)
  {
    StartedFile(a, c, v.fat);
    OneClusterMore(a, c, v);
    forall t | t in a.chains && t != c ensures SameFile(a, b, t) {
      SameTwice(a, c, v, b, t);
    }
  }

  lemma OneClusterMore(a: FileSystem, c: nat, v: FileSystem)
    requires c !in a.chains && v.chains == a.chains[c := [c]] && |FreeClusters(v.fat)| + 1 == |FreeClusters(a.fat)|
    ensures |FreeClusters(v.fat)| + |v.Clusters(c)| == |FreeClusters(a.fat)| + |a.Clusters(c)|
    ensures v.chains.Keys + {c} == a.chains.Keys + {c}
  {
  }

  lemma SameTwice(a: FileSystem, c: nat, v: FileSystem, b: FileSystem, t: nat)
    requires v.data == a.data && v.chains == a.chains[c := [c]] && t in a.chains && t != c && OnlyChanged(v, c, b)
    ensures SameFile(a, b, t)
  {
    StartKeeps(a, c, v, t);
    assert SameFile(v, b, t);
  }

  /** Starting a file changes no other one. */
  lemma StartKeeps(a: FileSystem, c: nat, v: FileSystem, t: nat)
    requires v.data == a.data && v.chains == a.chains[c := [c]] && t in a.chains && t != c
    ensures t in v.chains && SameFile(a, v, t)
  {
  }

  lemma KeptFile(a: FileSystem, s: nat, b: FileSystem, t: nat)
    requires OnlyChanged(a, s, b) && t in a.chains && t != s
    ensures b.Ok() && t in b.chains && b.chains[t] == a.chains[t] && b.FileBytes(t) == a.FileBytes(t)
  {
    assert SameFile(a, b, t);
    assert t in b.chains.Keys;
  }

  lemma NewBytesPut(a: FileSystem, c: nat, v: FileSystem, bytes: seq<byte>, b: FileSystem)
    requires c !in a.chains && BytesPut(v, c, 0, bytes, b)
    ensures BytesPut(a, c, 0, bytes, b)
  {
  }

  /** Exactly then the write can run to its end. */
  lemma RoomIsEnough(v: FileSystem, s: nat, call: Call)
    requires s in v.chains && call.fat == v.fat && call.ch == v.chains[s]
    ensures v.Room(call.l, s, call.plan) <==> call.EnoughSpace()
  {
    var bare := Call(call.l, v.fat, v.data, v.Clusters(s), call.plan, []);
    assert forall c: nat :: bare.Available(c) <==> call.Available(c);
    assert bare.AvailableSet() == call.AvailableSet();
  }

  /** Taking the lowest free cluster for a new file leaves room for the rest of it. */
  lemma RoomAfterStart(v: FileSystem, l: Layout, c: nat, fat': seq<nat>, p: Plan)
    requires v.Ok() && IsLowestFree(l, v.fat, c) && Rewritten(v.fat, [], fat', [c])
    requires 0 !in v.chains && v.Room(l, 0, p) && p.skip == 0
    ensures FileSystem(fat', v.data, v.chains[c := [c]]).Room(l, c, p)
  {
    var none, one := Call(l, v.fat, v.data, [], p, []), Call(l, fat', v.data, [c], p, []);
    assert fat'[c] != FAT_ENTRY_FREE by { ChainLink(fat', [c], 0); }
    forall x: nat | x < |v.fat| ensures one.Available(x) <==> none.Available(x) && x != c {
      if x != c { assert x !in [c]; }
    }
    assert one.AvailableSet() == none.AvailableSet() - {c};
  }

  /** What is asked of the arguments of a write. */
  ghost predicate Writable(cs: nat, size: nat, startPos: nat, input: seq<byte>) {
    && cs > 0 && startPos + size <= 0xFFFF_FFFF && size <= |input|
    && (size == 0 && startPos % cs > 0 ==> cs - startPos % cs <= |input|)
  }

  /** The write starts inside the file or at its end, and there is enough space for it. */
  ghost predicate Fits(l: Layout, v: FileSystem, s: nat, size: nat, startPos: nat) {
    l.clusterSize > 0 && startPos <= |v.FileBytes(s)| && v.Room(l, s, WritePlan(l.clusterSize, startPos, size))
  }

  lemma SoundWrite(d: FatDevice, v: FileSystem, s: nat, size: nat, startPos: nat, input: seq<byte>)
    requires d.Valid() && v.fat == d.fat && v.data == d.data && v.Ok() && s in v.chains
    requires Writable(d.layout.clusterSize, size, startPos, input)
    ensures var call := CallOf(d.layout, d.fat, d.data, v.chains[s], size, startPos, input);
            && IsChain(v.fat, v.chains[s]) && v.chains[s][0] == s
            && call.Sound() && call.plan.Position() == startPos
            && (Fits(d.layout, v, s, size, startPos) ==> call.EnoughSpace() && call.plan.skip <= |call.ch|)
            && (WritesInPlace(d.layout.clusterSize, startPos, size) ==> call.plan.Fills())
  {
    var call := CallOf(d.layout, d.fat, d.data, v.chains[s], size, startPos, input);
    ChainOnVolume(v, s);
    SoundCall(d, v.chains[s], size, startPos, input);
    RoomIsEnough(v, s, call);
    InPlaceExactly(d.layout.clusterSize, startPos, size);
    if startPos <= |v.FileBytes(s)| { StartsInFile(call); }
  }

  lemma StartsInFile(call: Call)
    requires call.Sound() && call.plan.Position() <= |Content(call.data, call.ch)|
    ensures call.plan.skip <= |call.ch|
  {
    ContentLength(call.data, call.ch, call.plan.cs);
    if |call.ch| < call.plan.skip { TimesApart(|call.ch|, call.plan.skip, call.plan.cs); }
  }

  /** Writing into a file that has clusters. */
  method WriteClusters(d: FatDevice, s: nat, size: nat, startPos: nat, input: seq<byte>, ghost v: FileSystem)
    returns (r: int, ghost ch': seq<nat>)
    requires d.Valid() && v.fat == d.fat && v.data == d.data && v.Ok() && s in v.chains
    requires Writable(d.layout.clusterSize, size, startPos, input)
    modifies d.Footprint()
    ensures d.Ready()
    ensures d.disk.faults == old(d.disk.faults) && Fits(d.layout, v, s, size, startPos) ==>
              var b := FileSystem(d.fat, d.data, v.chains[s := ch']);
              && r == SUCCESS && d.Valid() && OnlyChanged(v, s, b)
              && (WritesInPlace(d.layout.clusterSize, startPos, size) ==> BytesPut(v, s, startPos, input[..size], b))
              && (old(d.fat == d.fatCopy) ==> d.fat == d.fatCopy)
  {
    ghost var call := CallOf(d.layout, d.fat, d.data, v.chains[s], size, startPos, input);
    SoundWrite(d, v, s, size, startPos, input);
    r, ch' := WriteFatFile(d, s, size, startPos, input, v.chains[s]);
    if d.disk.faults == old(d.disk.faults) && Fits(d.layout, v, s, size, startPos) {
      WrittenFile(v, s, call, d.fat, d.data, ch');
    }
  }

  /** No cluster can be had for a file that needs its first one. */
  ghost predicate NoFirst(l: Layout, v: FileSystem, startCluster: nat) {
    startCluster == 0 && NoneFree(l, v.fat)
  }

  /** A file without clusters gets its first one. */
  method EnsureCluster(d: FatDevice, startCluster: nat, ghost v: FileSystem) returns (first: nat, r: int, ghost v': FileSystem)
    requires d.Valid() && v.fat == d.fat && v.data == d.data && v.Ok() && (startCluster == 0 || startCluster in v.chains)
    requires NoFirst(d.layout, v, startCluster) ==> ScanLimit(d.layout.totalSectorsBig) <= d.layout.entries
    modifies d.Footprint()
    ensures d.Ready()
    ensures NoFirst(d.layout, v, startCluster) ==>
              r == -EDISKSPACE && d.Valid() && d.fat == old(d.fat) && d.fatCopy == old(d.fatCopy) && d.data == old(d.data)
    ensures !NoFirst(d.layout, v, startCluster) ==> (r == SUCCESS <==> d.disk.faults == old(d.disk.faults)) && r <= SUCCESS
    ensures r == SUCCESS ==> && d.Valid() && Ensured(d.layout, v, startCluster, first, v') && v'.fat == d.fat && v'.data == d.data
                             && (old(d.fat == d.fatCopy) ==> d.fat == d.fatCopy)
  {
    first, r, v' := startCluster, SUCCESS, v;
    if startCluster == 0 {
      first, r := StartChain(d);
      v' := FileSystem(d.fat, d.data, v.chains[first := [first]]);
      if r == SUCCESS { StartedFile(v, first, d.fat); }
    }
  }

  /** File `first` exists; it is new when there was none. */
  ghost predicate Ensured(l: Layout, v: FileSystem, startCluster: nat, first: nat, v': FileSystem) {
    && v'.Ok() && first in v'.chains
    && if startCluster != 0 then v' == v && first == startCluster
       else
         && IsLowestFree(l, v.fat, first) && Rewritten(v.fat, [], v'.fat, [first])
         && v' == FileSystem(v'.fat, v.data, v.chains[first := [first]])
  }

  /** What fitted before, fits now. */
  lemma EnsuredFits(l: Layout, v: FileSystem, startCluster: nat, first: nat, v': FileSystem, size: nat, startPos: nat)
    requires v.Ok() && Ensured(l, v, startCluster, first, v') && Fits(l, v, startCluster, size, startPos)
    ensures Fits(l, v', first, size, startPos) && (startCluster == 0 ==> startPos == 0)
  {
    if startCluster == 0 {
      NewFileIsEmpty(v, startPos);
      NewFileStart(l.clusterSize, size);
      RoomAfterStart(v, l, first, v'.fat, WritePlan(l.clusterSize, startPos, size));
    }
  }

  lemma NewFileIsEmpty(v: FileSystem, startPos: nat)
    requires v.Ok() && startPos <= |v.FileBytes(0)|
    ensures startPos == 0 && 0 !in v.chains
  {
    if 0 in v.chains { ChainOnVolume(v, 0); }
  }

  lemma NewFileStart(cs: nat, size: nat)
    requires cs > 0
    ensures WritePlan(cs, 0, size).skip == 0
  {
    DivUnique(0, 0, cs);
  }

  lemma ReplacedTwice(chains: map<nat, seq<nat>>, c: nat, a: seq<nat>, b: seq<nat>)
    ensures chains[c := a][c := b] == chains[c := b]
  {
  }

  lemma EnsuredWritten(l: Layout, v: FileSystem, startCluster: nat, first: nat, v': FileSystem, startPos: nat,
                       bytes: seq<byte>, inPlace: bool, fat'': seq<nat>, data'': seq<seq<byte>>, ch'': seq<nat>)
    requires v.Ok() && Ensured(l, v, startCluster, first, v') && (startCluster == 0 ==> startPos == 0)
    requires OnlyChanged(v', first, FileSystem(fat'', data'', v'.chains[first := ch'']))
    requires inPlace ==> BytesPut(v', first, startPos, bytes, FileSystem(fat'', data'', v'.chains[first := ch'']))
    ensures OnlyChanged(v, first, FileSystem(fat'', data'', v.chains[first := ch'']))
    ensures inPlace ==> BytesPut(v, first, startPos, bytes, FileSystem(fat'', data'', v.chains[first := ch'']))
  {
    if startCluster == 0 {
      ReplacedTwice(v.chains, first, [first], ch'');
      StartedFile(v, first, v'.fat);
      NewFileWritten(v, first, v', FileSystem(fat'', data'', v.chains[first := ch'']));
      if inPlace { NewBytesPut(v, first, v', bytes, FileSystem(fat'', data'', v.chains[first := ch''])); }
    }
  }

  /** `writeFile` between looking the file up and updating its directory entry: a file without
      clusters (`startCluster` 0) gets a first one, then the bytes are written. */
  method WriteFile(d: FatDevice, startCluster: nat, size: nat, startPos: nat, input: seq<byte>, ghost chains: map<nat, seq<nat>>)
    returns (r: int, first: nat, ghost ch': seq<nat>)
    requires d.Valid() && Forest(d.fat, chains) && (startCluster == 0 || startCluster in chains)
    requires Writable(d.layout.clusterSize, size, startPos, input)
    requires startCluster == 0 && NoneFree(d.layout, d.fat) ==> ScanLimit(d.layout.totalSectorsBig) <= d.layout.entries
    modifies d.Footprint()
    ensures d.Ready()
    ensures startCluster == 0 && NoneFree(d.layout, old(d.fat)) ==>
              r == -EDISKSPACE && d.Valid() && d.fat == old(d.fat) && d.fatCopy == old(d.fatCopy) && d.data == old(d.data)
    ensures var a, b := FileSystem(old(d.fat), old(d.data), chains), FileSystem(d.fat, d.data, chains[first := ch']);
            d.disk.faults == old(d.disk.faults) && !(startCluster == 0 && NoneFree(d.layout, old(d.fat)))
            && Fits(d.layout, a, startCluster, size, startPos) ==>
              && r == SUCCESS && d.Valid()
              && (if startCluster == 0 then IsLowestFree(d.layout, old(d.fat), first) else first == startCluster)
              && OnlyChanged(a, first, b)
              && (WritesInPlace(d.layout.clusterSize, startPos, size) ==> Replaced(a, first, startPos, input[..size], b))
              && (old(d.fat == d.fatCopy) ==> d.fat == d.fatCopy)
  {
    ghost var v := FileSystem(d.fat, d.data, chains);
    ghost var v';
    ch' := [];
    ClustersMatch(d);
    first, r, v' := EnsureCluster(d, startCluster, v);
    if r < 0 { return; }
    if Fits(d.layout, v, startCluster, size, startPos) { EnsuredFits(d.layout, v, startCluster, first, v', size, startPos); }
    r, ch' := WriteClusters(d, first, size, startPos, input, v');
    if d.disk.faults == old(d.disk.faults) && Fits(d.layout, v, startCluster, size, startPos) {
      EnsuredWritten(d.layout, v, startCluster, first, v', startPos, input[..size],
                     WritesInPlace(d.layout.clusterSize, startPos, size), d.fat, d.data, ch');
    }
  }

  lemma ClustersMatch(d: FatDevice)
    requires d.Valid()
    ensures |d.data| == |d.fat|
  {
  }

  /** `readFile` behind the lookup. A read that suits the chain copies a slice of the file, or fails
      with `-EFSYSTEM` when it runs past the last cluster. */
  method ReadFile(d: FatDevice, startCluster: nat, size: nat, filePos: nat, out: array<byte>, ghost chains: map<nat, seq<nat>>) returns (r: int)
    requires d.Valid() && Forest(d.fat, chains) && (startCluster in chains || (startCluster == 0 && filePos < d.layout.clusterSize))
    requires size <= out.Length && PlanRead(d.layout.clusterSize, filePos, size).Total() <= out.Length
    requires filePos / d.layout.clusterSize > |FileSystem(d.fat, d.data, chains).Clusters(startCluster)| ==>
               d.layout.FatAddress(FAT_ENTRY_USED) + 4 > |d.Volume()|
    modifies d.readStream`position, d.readStream.diskStream`position, d.disk`faults, out
    ensures d.Valid()
    ensures var ch := FileSystem(d.fat, d.data, chains).Clusters(startCluster);
            && OnVolume(d.layout, ch)
            && (d.disk.faults == old(d.disk.faults) ==>
                  Outcome(d.layout, d.Volume(), PlanRead(d.layout.clusterSize, filePos, size), ch, old(out[..]), out[..], r))
    ensures var v := FileSystem(d.fat, d.data, chains);
            d.disk.faults == old(d.disk.faults) && filePos <= |v.FileBytes(startCluster)| && ReadSuits(d, v, startCluster, filePos, size) ==>
              SliceRead(v.FileBytes(startCluster), filePos, size, old(out[..]), out[..], r)
  {
    ghost var v, before := FileSystem(d.fat, d.data, chains), out[..];
    ClustersMatch(d);
    if startCluster in chains { ChainOnVolume(v, startCluster); }
    r := ReadFatFile(d, startCluster, size, filePos, out, v.Clusters(startCluster));
    if d.disk.faults == old(d.disk.faults) && filePos <= |v.FileBytes(startCluster)| && ReadSuits(d, v, startCluster, filePos, size) {
      SuitingRead(d, v, startCluster, filePos, size, before, out[..], r);
    }
  }

  /** A read of file `s` on the volume is one that `ReadsExactly` finds right. */
  ghost predicate ReadSuits(d: FatDevice, v: FileSystem, s: nat, position: nat, size: nat)
    reads d.Footprint()
  {
    d.Valid() && var q := Request(d.layout, |d.Volume()|, v.Clusters(s), position, size); q.Ok() && q.Suits()
  }

  lemma SuitingRead(d: FatDevice, v: FileSystem, s: nat, position: nat, size: nat, before: seq<byte>, out: seq<byte>, r: int)
    requires ReadSuits(d, v, s, position, size) && v.data == d.data && v.OnVolume(s)
    requires size <= |before| && PlanRead(d.layout.clusterSize, position, size).Total() <= |before|
    requires Outcome(d.layout, d.Volume(), PlanRead(d.layout.clusterSize, position, size), v.Clusters(s), before, out, r)
    ensures position <= |v.FileBytes(s)| && SliceRead(v.FileBytes(s), position, size, before, out, r)
  {
    FileSlice(d, Request(d.layout, |d.Volume()|, v.Clusters(s), position, size), before, out, r);
  }

  /** What was written is what a read finds: when `WriteFile` has left the volume `b`, and `ReadFile` on
      it, at the same position and size, has run without failure, it succeeded with these bytes. */
  lemma ReadBack(d: FatDevice, a: FileSystem, s: nat, position: nat, bytes: seq<byte>, b: FileSystem, before: seq<byte>, out: seq<byte>, r: int)
    requires d.Valid() && b.fat == d.fat && b.data == d.data && Replaced(a, s, position, bytes, b)
    requires ReadSuits(d, b, s, position, |bytes|)
    requires |bytes| <= |before| && PlanRead(d.layout.clusterSize, position, |bytes|).Total() <= |before|
    requires Outcome(d.layout, d.Volume(), PlanRead(d.layout.clusterSize, position, |bytes|), b.Clusters(s), before, out, r)
    ensures r == SUCCESS && out == Splice(before, 0, bytes)
  {
    PutBytes(d, a, s, position, bytes, b);
    SuitingRead(d, b, s, position, |bytes|, before, out, r);
    SliceIs(b.FileBytes(s), position, bytes, before, out, r);
  }

  lemma SliceIs(content: seq<byte>, position: nat, bytes: seq<byte>, before: seq<byte>, out: seq<byte>, r: int)
    requires position + |bytes| <= |content| && content[position..position + |bytes|] == bytes && |bytes| <= |before|
    requires SliceRead(content, position, |bytes|, before, out, r)
    ensures r == SUCCESS && out == Splice(before, 0, bytes)
  {
  }

  lemma PutBytes(d: FatDevice, a: FileSystem, s: nat, position: nat, bytes: seq<byte>, b: FileSystem)
    requires d.Valid() && b.fat == d.fat && b.data == d.data && Replaced(a, s, position, bytes, b)
    ensures s in b.chains && b.OnVolume(s) && b.FileBytes(s) == Content(d.data, b.Clusters(s)) && position + |bytes| <= |b.FileBytes(s)|
    ensures b.FileBytes(s)[position..position + |bytes|] == bytes
  {
    assert s in b.chains.Keys;
    ChainOnVolume(b, s);
    Unglue(b.FileBytes(s), a.FileBytes(s)[..position], bytes);
  }

  /** A run of writes to `files`, in place or not, with the volumes between them. */
  ghost predicate Writings(states: seq<FileSystem>, files: seq<nat>) {
    && |states| == |files| + 1 && states[0].Ok()
    && forall i {:trigger files[i]} :: 0 <= i < |files| ==> OnlyChanged(states[i], files[i], states[i + 1])
  }

  /** Over any run of writes, files that are not written keep their clusters and bytes. */
  lemma {:induction false} UntouchedOverRuns(states: seq<FileSystem>, files: seq<nat>, n: nat, t: nat)
    requires Writings(states, files) && n <= |files| && t in states[0].chains
    requires forall i {:trigger files[i]} :: 0 <= i < n ==> files[i] != t
    ensures states[n].Ok() && t in states[n].chains
    ensures states[n].chains[t] == states[0].chains[t] && states[n].FileBytes(t) == states[0].FileBytes(t)
  {
    if n > 0 {
      UntouchedOverRuns(states, files, n - 1, t);
      assert files[n - 1] != t;
      KeptFile(states[n - 1], files[n - 1], states[n], t);
    }
  }
}
