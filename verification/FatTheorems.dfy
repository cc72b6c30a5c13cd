/** What a finished `writeFatFile` means for the file, for the other files and for the volume. */
module FatTheorems {
  import opened Bytes
  import opened FatChains
  import opened FatContent
  import opened FatWrites

  /** The file from its start to the end of the write. */
  ghost function FrontWritten(call: Call, data': seq<seq<byte>>, ch': seq<nat>): seq<byte>
    requires call.Sound() && forall i :: 0 <= i < |ch'| ==> ch'[i] < |data'|
    requires call.plan.Position() + call.plan.size <= |Content(data', ch')|
  {
    Content(data', ch')[..call.plan.Position() + call.plan.size]
  }

  /** The chain of a written file has exactly as many clusters as the bytes up to the end of the
      write need, and at least the one the write started in. */
  lemma ChainLengthIsCeiling(call: Call, fat': seq<nat>, data': seq<seq<byte>>, ch': seq<nat>)
    requires call.Sound() && call.Done(fat', data', ch')
    ensures call.plan.count > 0 ==> (|ch'| - 1) * call.plan.cs < call.plan.Position() + call.plan.size <= |ch'| * call.plan.cs
    ensures call.plan.count == 0 ==> |ch'| == call.plan.skip + 1 && call.plan.Position() + call.plan.size == call.plan.skip * call.plan.cs
  {
    Ceiling(call.plan, |ch'|, |ch'| - 1);
  }

  lemma Ceiling(p: Plan, n: nat, m: nat)
    requires p.Sound() && n == m + 1 == p.skip + (if p.count == 0 then 1 else p.count)
    ensures p.count > 0 ==> m * p.cs < p.Position() + p.size <= n * p.cs
    ensures p.count == 0 ==> n == p.skip + 1 && p.Position() + p.size == p.skip * p.cs
  {
    PlanCovers(p);
    TimesIsProduct(p.skip, p.cs);
    TimesIsProduct(n, p.cs);
    TimesIsProduct(m, p.cs);
  }

  /** Free clusters change by the difference of the two chain lengths. */
  lemma WriteConservesClusters(call: Call, fat': seq<nat>, data': seq<seq<byte>>, ch': seq<nat>)
    requires call.Sound() && call.Done(fat', data', ch')
    ensures |FreeClusters(fat')| + call.Length() == |FreeClusters(call.fat)| + |call.ch|
  {
    ClustersConserved(call.fat, call.ch, fat', ch');
  }

  /** When the first chunk fills its cluster or is the whole write, the file is the old bytes in
      front of the write followed by the input. */
  lemma WriteIsSplice(call: Call, data': seq<seq<byte>>, ch': seq<nat>)
    requires call.Sound() && call.BytesDone(data', ch')
    requires call.plan.Position() <= |Content(call.data, call.ch)| && call.plan.Fills()
    ensures call.plan.Position() + call.plan.size <= |Content(data', ch')|
    ensures FrontWritten(call, data', ch') == Content(call.data, call.ch)[..call.plan.Position()] + call.input[..call.plan.size]
  {
    FillsExactly(call.plan);
    FilledInPlace(call.plan, call.input, call.Front(), data', ch');
  }

  lemma FilledInPlace(p: Plan, input: seq<byte>, front: seq<byte>, data': seq<seq<byte>>, ch': seq<nat>)
    requires p.Sound() && |ch'| == p.skip + (if p.count == 0 then 1 else p.count) && |front| == p.Position()
    requires p.size <= |input| && Progress(p, input, front, p.Total(), data', ch')
    requires forall t :: 0 <= t < p.size ==> p.Placed(t) == p.Position() + t
    ensures p.Position() + p.size <= |Content(data', ch')|
    ensures Content(data', ch')[..p.Position() + p.size] == front + input[..p.size]
  {
    PlanCovers(p);
    var content := Content(data', ch');
    ContentLength(data', ch', p.cs);
    forall t | 0 <= t < p.size ensures content[p.Position() + t] == input[t] {
      assert p.Placed(t) == p.Position() + t;
      assert PlacedByte(p, content, t, input[t]);
    }
    Glue(content, front, input, p.size);
  }

  /** The byte of the file at `at`. */
  ghost predicate ByteAt(data: seq<seq<byte>>, ch: seq<nat>, at: nat, b: byte) {
    (forall i :: 0 <= i < |ch| ==> ch[i] < |data|) && at < |Content(data, ch)| && Content(data, ch)[at] == b
  }

  /** Otherwise the byte behind the first chunk is what the cluster held there, and the rest of the
      input starts at the next cluster. So one input byte that differs is enough to make the file
      something else than was asked for. */
  lemma WriteElsewhere(call: Call, data': seq<seq<byte>>, ch': seq<nat>)
    requires call.Sound() && call.BytesDone(data', ch') && !call.plan.Fills()
    ensures var p := call.plan;
            && p.first < p.size && p.Position() + p.first < Times(p.skip + 1, p.cs)
            && ch'[p.skip] < |call.data| && |call.data[ch'[p.skip]]| == p.cs
            && ByteAt(data', ch', p.Position() + p.first, call.data[ch'[p.skip]][p.offset + p.first])
            && ByteAt(data', ch', Times(p.skip + 1, p.cs), call.input[p.first])
  {
    GapInPlan(call.plan);
    GapAfterFirst(call, data', ch');
    var own := call.data[ch'[call.plan.skip]];
    GapInFile(call.plan, call.input, call.Front(), own, data', ch');
  }

  lemma GapInPlan(p: Plan)
    requires p.Sound() && !p.Fills()
    ensures p.count > 0 && p.first < p.size && p.offset + p.first < p.cs && p.Position() + p.first < Times(p.skip + 1, p.cs)
  {
  }

  /** The cluster the write starts in keeps its bytes behind the first chunk. */
  lemma GapAfterFirst(call: Call, data': seq<seq<byte>>, ch': seq<nat>)
    requires call.Sound() && call.plan.count > 0 && call.Written(call.plan.count, data', ch') && ch'[call.plan.skip] >= 2
    ensures var p, c := call.plan, ch'[call.plan.skip];
            && c < |data'| == |call.data| && |call.data[c]| == |data'[c]| == p.cs
            && forall k :: p.offset + p.first <= k < p.cs ==> data'[c][k] == call.data[c][k]
  {
    assert call.ChunkIn(0, data', ch');
    call.ChunkInRange(0);
  }

  lemma GapInFile(p: Plan, input: seq<byte>, front: seq<byte>, own: seq<byte>, data': seq<seq<byte>>, ch': seq<nat>)
    requires p.Sound() && p.skip < |ch'| && p.first < p.size <= |input| && p.offset + p.first < p.cs == |own|
    requires Progress(p, input, front, p.size, data', ch')
    requires ch'[p.skip] < |data'| && |data'[ch'[p.skip]]| == p.cs && data'[ch'[p.skip]][p.offset + p.first] == own[p.offset + p.first]
    ensures ByteAt(data', ch', p.Position() + p.first, own[p.offset + p.first])
    ensures ByteAt(data', ch', Times(p.skip + 1, p.cs), input[p.first])
  {
    ContentAt(data', ch', p.cs, p.skip);
    var at := Times(p.skip, p.cs);
    var own' := data'[ch'[p.skip]];
    assert Content(data', ch')[at..at + p.cs][p.offset + p.first] == own'[p.offset + p.first];
    assert PlacedByte(p, Content(data', ch'), p.first, input[p.first]);
  }

  /** One byte more than a cluster, written at the start of a file: byte 1 of the file keeps its old
      value, and byte 1 of the input lands at the start of the second cluster. */
  lemma MisplacedWrite(call: Call, data': seq<seq<byte>>, ch': seq<nat>)
    requires call.Sound() && call.BytesDone(data', ch') && call.plan.cs > 1
    requires call.plan == Plan(call.plan.cs, 0, 0, call.plan.cs + 1, 2, 1)
    ensures ch'[0] < |call.data| && |call.data[ch'[0]]| == call.plan.cs
    ensures ByteAt(data', ch', 1, call.data[ch'[0]][1]) && ByteAt(data', ch', call.plan.cs, call.input[1])
  {
    WriteElsewhere(call, data', ch');
    SecondCluster(call.plan);
  }

  lemma SecondCluster(p: Plan)
    requires p.skip == 0 && p.offset == 0
    ensures Times(p.skip + 1, p.cs) == p.cs && p.Position() == 0
  {
  }

  /** An empty write inside a cluster still writes: the rest of that cluster becomes what lies behind
      the empty input. At a cluster border it writes nothing. */
  lemma EmptyWrite(call: Call, data': seq<seq<byte>>, ch': seq<nat>)
    requires call.Sound() && call.BytesDone(data', ch') && call.plan.size == 0
    ensures call.plan.offset == 0 ==> data' == call.data
    ensures call.plan.offset > 0 ==>
              forall t :: 0 <= t < call.plan.first ==> ByteAt(data', ch', call.plan.Position() + t, call.input[t])
  {
    if call.plan.offset == 0 {
      forall c | 0 <= c < |data'| ensures data'[c] == call.data[c] {
        assert !call.Touched(0, ch', c);
      }
    } else {
      forall t | 0 <= t < call.plan.first ensures ByteAt(data', ch', call.plan.Position() + t, call.input[t]) {
        assert PlacedByte(call.plan, Content(data', ch'), t, call.input[t]);
      }
    }
  }

  /** Every other file keeps its chain and its bytes, and the volume stays a forest of chains. */
  lemma OtherFilesKept(call: Call, fat': seq<nat>, data': seq<seq<byte>>, ch': seq<nat>, chains: map<nat, seq<nat>>)
    requires call.Sound() && call.Done(fat', data', ch')
    requires Forest(call.fat, chains) && call.ch[0] in chains
    ensures Forest(fat', chains[call.ch[0] := ch'])
    ensures forall s :: s in chains && s != call.ch[0] ==>
              && IsChain(call.fat, chains[s]) && IsChain(fat', chains[s])
              && Content(data', chains[s]) == Content(call.data, chains[s])
  {
    var start := call.ch[0];
    ForestOwns(call.fat, chains, call.ch);
    assert ch'[0] == ch'[..call.Kept()][0] == call.ch[..call.Kept()][0] == start;
    ForestKept(call.fat, chains, start, call.ch, fat', ch');
    forall s | s in chains && s != start
      ensures IsChain(call.fat, chains[s]) && IsChain(fat', chains[s])
      ensures Content(data', chains[s]) == Content(call.data, chains[s])
    {
      OtherFileKept(call, fat', data', ch', chains[s]);
    }
  }

  lemma OtherFileKept(call: Call, fat': seq<nat>, data': seq<seq<byte>>, ch': seq<nat>, other: seq<nat>)
    requires call.Sound() && call.Done(fat', data', ch')
    requires IsChain(call.fat, other) && NoShare(call.ch, other)
    ensures IsChain(fat', other)
    ensures Content(data', other) == Content(call.data, other)
  {
    OtherChainKept(call.fat, call.ch, fat', ch', other);
    call.OffChain(call.plan.count, data', ch');
    forall i | 0 <= i < |other| ensures data'[other[i]] == call.data[other[i]] {
      assert other[i] !in ch';
    }
    ContentSame(call.data, data', other);
  }
}
