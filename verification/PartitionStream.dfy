/** `disk/partitionStream.c`: a disk stream confined to the window of one partition. */
module PartitionStreams {
  import opened Bytes
  import opened Stream

  /** A partition of a disk, in bytes. */
  datatype Window = Window(offset: nat, size: nat, diskSize: nat)
  {
    ghost predicate OnDisk() {
      offset + size <= diskSize
    }
  }

  /** What a partition stream and its disk hold: the flat disk, the position of the inner disk
      stream and the position the partition stream believes in. */
  datatype State = State(store: seq<byte>, diskPosition: nat, position: nat)

  datatype Operation = Seek(target: nat) | Read(length: nat) | Write(data: seq<byte>)

  ghost predicate Synced(w: Window, s: State) {
    s.diskPosition == w.offset + s.position && s.position <= w.size
  }

  /** The inner stream stands at the end of its disk, where `diskStreamSeek` refuses to move it. */
  ghost predicate Stuck(w: Window, s: State) {
    s.diskPosition >= w.diskSize
  }

  ghost predicate Advance(w: Window, s: State, length: nat, s': State) {
    && s.position + length <= w.size
    && !Stuck(w, s)
    && s.diskPosition + length <= w.diskSize
    && s'.diskPosition == s.diskPosition + length
    && s'.position == s.position + length
  }

  /** One call, with its status. Reads and writes may fail at any time and then change nothing.
      A seek inside the window always reports success, also when the inner stream did not move. */
  ghost predicate Step(w: Window, s: State, op: Operation, s': State, r: int) {
    match op
    case Seek(target) =>
      if target < w.size then
        && r == SUCCESS
        && s' == s.(position := target, diskPosition := if Stuck(w, s) then s.diskPosition else w.offset + target)
      else r == -EDISKSPACE && s' == s
    case Read(length) =>
      if r == SUCCESS then Advance(w, s, length, s') && s'.store == s.store
      else r < 0 && s' == s
    case Write(data) =>
      if r == SUCCESS then
        && Advance(w, s, |data|, s')
        && s.diskPosition + |data| <= |s.store|
        && s'.store == Splice(s.store, s.diskPosition, data)
      else r < 0 && s' == s
  }

  /** A run of any number of calls with their states and statuses. */
  datatype Run = Run(states: seq<State>, ops: seq<Operation>, results: seq<int>)
  {
    ghost predicate Of(w: Window) {
      && |states| == |ops| + 1
      && |results| == |ops|
      && forall i {:trigger ops[i]} :: 0 <= i < |ops| ==> Step(w, states[i], ops[i], states[i + 1], results[i])
    }

    ghost function Prefix(n: nat): Run
      requires n < |states| && |states| == |ops| + 1 && |results| == |ops|
    {
      Run(states[..n + 1], ops[..n], results[..n])
    }
  }

  ghost predicate SameOutside(w: Window, a: seq<byte>, b: seq<byte>) {
    |a| == |b| && forall i :: 0 <= i < |a| && !(w.offset <= i < w.offset + w.size) ==> a[i] == b[i]
  }

  /** No run writes outside the partition, whether or not the two positions stay in step: a stream
      that loses step can no longer write. */
  lemma {:induction false} WritesConfined(w: Window, run: Run)
    requires w.OnDisk() && run.Of(w)
    requires Synced(w, run.states[0]) || Stuck(w, run.states[0]) || run.states[0].position > w.size
    requires |run.states[0].store| == w.diskSize
    ensures forall i :: 0 <= i < |run.states| ==>
              SameOutside(w, run.states[0].store, run.states[i].store)
    ensures var last := run.states[|run.ops|]; Synced(w, last) || Stuck(w, last) || last.position > w.size
    decreases |run.ops|
  {
    var n := |run.ops|;
    if n > 0 {
      var before := run.Prefix(n - 1);
      assert before.Of(w);
      WritesConfined(w, before);
      assert Step(w, run.states[n - 1], run.ops[n - 1], run.states[n], run.results[n - 1]);
      forall i | 0 <= i < |run.states| ensures SameOutside(w, run.states[0].store, run.states[i].store) {
        if i < n { assert before.states[i] == run.states[i]; }
      }
    }
  }

  /** A stuck stream never recovers: no later read or write succeeds. */
  lemma {:induction false} StuckForever(w: Window, run: Run)
    requires run.Of(w) && Stuck(w, run.states[0])
    ensures run.states[|run.ops|].diskPosition == run.states[0].diskPosition
    ensures run.states[|run.ops|].store == run.states[0].store
    ensures forall i :: 0 <= i < |run.ops| && !run.ops[i].Seek? ==> run.results[i] < 0
    decreases |run.ops|
  {
    var n := |run.ops|;
    if n > 0 {
      var before := run.Prefix(n - 1);
      assert before.Of(w);
      StuckForever(w, before);
      assert Step(w, run.states[n - 1], run.ops[n - 1], run.states[n], run.results[n - 1]);
      assert forall i :: 0 <= i < n - 1 ==> run.ops[i] == before.ops[i] && run.results[i] == before.results[i];
    }
  }

  lemma {:induction false} StaysSynced(w: Window, run: Run)
    requires w.offset + w.size < w.diskSize || w.size == 0
    requires run.Of(w) && Synced(w, run.states[0])
    ensures Synced(w, run.states[|run.ops|])
    decreases |run.ops|
  {
    var n := |run.ops|;
    if n > 0 {
      var before := run.Prefix(n - 1);
      assert before.Of(w);
      StaysSynced(w, before);
      assert Step(w, run.states[n - 1], run.ops[n - 1], run.states[n], run.results[n - 1]);
    }
  }

  /** Reading up to the end of a partition that ends where the disk ends, then seeking back, loses
      step although both calls report success. */
  function LosingRun(w: Window, store: seq<byte>): Run {
    Run([State(store, w.offset, 0), State(store, w.offset + w.size, w.size), State(store, w.offset + w.size, 0)],
        [Read(w.size), Seek(0)],
        [SUCCESS, SUCCESS])
  }

  /** On a disk of the right size, a run that starts in step ends in step. */
  ghost predicate KeepsStep(w: Window, run: Run) {
    run.Of(w) && |run.states[0].store| == w.diskSize && Synced(w, run.states[0]) ==> Synced(w, run.states[|run.ops|])
  }

  /** The disk position equals `volumeOffset + position` after every run exactly when the partition
      ends strictly before its disk does (or is empty): `partitionStreamSeek` drops the status of
      `diskStreamSeek`. */
  lemma SyncExactly(w: Window)
    requires w.OnDisk()
    ensures (forall run: Run :: KeepsStep(w, run)) <==> (w.offset + w.size < w.diskSize || w.size == 0)
  {
    if w.offset + w.size < w.diskSize || w.size == 0 {
      forall run: Run ensures KeepsStep(w, run) {
        if run.Of(w) && Synced(w, run.states[0]) { StaysSynced(w, run); }
      }
    } else {
      var run := LosingRun(w, seq(w.diskSize, _ => 0));
      assert run.Of(w) by {
        assert Step(w, run.states[0], run.ops[0], run.states[1], run.results[0]);
        assert Step(w, run.states[1], run.ops[1], run.states[2], run.results[1]);
      }
      assert !KeepsStep(w, run);
    }
  }

  class PartitionStream {
    const diskStream: DiskStream
    const volumeOffset: nat
    const volumeSize: nat
    var position: nat

    ghost function Bounds(): Window {
      Window(volumeOffset, volumeSize, diskStream.disk.sizeBytes)
    }

    ghost function Snapshot(): State
      reads this, diskStream, diskStream.disk`store
    {
      State(diskStream.disk.store, diskStream.position, position)
    }

    ghost predicate Valid()
      reads diskStream.disk`store
    {
      diskStream.disk.Valid() && volumeOffset + volumeSize <= diskStream.disk.sizeBytes
    }

    /** `partitionStreamCreate`, for a partition that was found. */
    constructor (disk: Disk, offset: nat, size: nat, position: nat)
      requires disk.Valid() && offset + size <= disk.sizeBytes
      ensures Valid() && fresh(diskStream) && diskStream.disk == disk
      ensures volumeOffset == offset && volumeSize == size
      ensures this.position == position && diskStream.position == offset + position
    {
      var inner := new DiskStream(disk, offset + position);
      diskStream := inner;
      volumeOffset := offset;
      volumeSize := size;
      this.position := position;
    }

    method Seek(target: nat) returns (r: int)
      requires Valid()
      modifies `position, diskStream`position
      ensures Step(Bounds(), old(Snapshot()), Operation.Seek(target), Snapshot(), r)
    {
      if target < volumeSize {
        var ignored := diskStream.Seek(volumeOffset + target);
        position := target;
        return SUCCESS;
      }
      return -EDISKSPACE;
    }

    method Read(out: array<byte>, at: nat, length: nat) returns (r: int)
      requires Valid() && at + length <= out.Length
      modifies `position, diskStream`position, diskStream.disk`faults, out
      ensures Step(Bounds(), old(Snapshot()), Operation.Read(length), Snapshot(), r)
      ensures old(position) + length > volumeSize ==> r == -EDISKSPACE
      ensures r == SUCCESS ==>
                && old(diskStream.position) + length <= |diskStream.disk.store|
                && out[..] == Splice(old(out[..]), at, diskStream.disk.store[old(diskStream.position)..old(diskStream.position) + length])
                && diskStream.disk.faults == old(diskStream.disk.faults)
      ensures r < 0 ==> out[..] == old(out[..])
      ensures diskStream.disk.faults >= old(diskStream.disk.faults)
      ensures old(!Stuck(Bounds(), Snapshot()) && Synced(Bounds(), Snapshot())) && old(position) + length <= volumeSize && r < 0 ==>
                diskStream.disk.faults > old(diskStream.disk.faults)
    {
      if position + length > volumeSize { return -EDISKSPACE; }
      r := diskStream.Read(out, at, length);
      if r == SUCCESS {
        position := position + length;
      }
    }

    method Write(data: seq<byte>) returns (r: int)
      requires Valid()
      modifies `position, diskStream`position, diskStream.disk
      ensures Valid()
      ensures Step(Bounds(), old(Snapshot()), Operation.Write(data), Snapshot(), r)
      ensures old(position) + |data| > volumeSize ==> r == -EDISKSPACE
      ensures r == SUCCESS ==> diskStream.disk.faults == old(diskStream.disk.faults)
      ensures diskStream.disk.faults >= old(diskStream.disk.faults)
      ensures old(!Stuck(Bounds(), Snapshot()) && Synced(Bounds(), Snapshot())) && old(position) + |data| <= volumeSize && r < 0 ==>
                diskStream.disk.faults > old(diskStream.disk.faults)
    {
      if position + |data| > volumeSize { return -EDISKSPACE; }
      r := diskStream.Write(data);
      if r == SUCCESS {
        position := position + |data|;
      }
    }
  }
}
