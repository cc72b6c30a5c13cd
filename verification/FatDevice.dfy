/** The accesses `driver/fat32.c` makes to its volume: FAT entries, the free-cluster scan and
    cluster bytes, over a read stream and a write stream of the same partition. */
module FatDevices {
  import opened Bytes
  import opened Stream
  import opened PartitionStreams
  import opened FatLayout

  /** What was read from the disk is a slice of the partition. */
  lemma ReadInWindow(store: seq<byte>, base: nat, window: seq<byte>, address: nat, length: nat, before: seq<byte>, at: nat, out: seq<byte>)
    requires base + |window| <= |store| && window == store[base..base + |window|] && address + length <= |window|
    requires at + length <= |before| && out == Splice(before, at, store[base + address..base + address + length])
    ensures out == Splice(before, at, window[address..address + length])
    ensures at == 0 && length == |before| ==> out == window[address..address + length]
  {
    SliceOfSlice(store, base, address, length, window);
  }

  lemma SpliceInWindow(store: seq<byte>, offset: nat, size: nat, at: nat, d: seq<byte>)
    requires offset + size <= |store| && at + |d| <= size
    ensures Splice(store, offset + at, d)[offset..offset + size] == Splice(store[offset..offset + size], at, d)
  {
  }

  lemma WordRead(volume: seq<byte>, base: nat, t: seq<nat>, start: nat, words: seq<byte>, i: nat)
    requires TableAt(volume, base, t)
    requires base + 4 * start + |words| <= |volume|
    requires words == volume[base + 4 * start..base + 4 * start + |words|]
    requires 4 * i + 4 <= |words| && start + i < |t|
    ensures Entry(words[4 * i..4 * i + 4]) == t[start + i]
  {
    SliceOfSlice(volume, base + 4 * start, 4 * i, 4, words);
    assert EntryAt(volume, base, start + i) == t[start + i];
  }

  lemma DecodedEntry(volume: seq<byte>, base: nat, t: seq<nat>, start: nat, words: seq<byte>, i: nat)
    requires TableAt(volume, base, t)
    requires base + 4 * start + |words| <= |volume|
    requires words == volume[base + 4 * start..base + 4 * start + |words|]
    requires 4 * i + 4 <= |words| && start + i < |t|
    ensures Entries(words)[i] == t[start + i]
  {
    WordRead(volume, base, t, start, words, i);
    EntriesAt(words, i);
  }

  /** Words read from the table at `base`, from entry `start` on, decode to its entries. */
  lemma DecodedEntries(volume: seq<byte>, base: nat, t: seq<nat>, start: nat, end: nat, entries: seq<nat>)
    requires TableAt(volume, base, t)
    requires start <= end && base + 4 * end <= |volume|
    requires entries == Entries(volume[base + 4 * start..base + 4 * end])
    ensures |entries| == end - start
    ensures forall j :: start <= j < end && j < |t| ==> t[j] == entries[j - start]
  {
    forall j | start <= j < end && j < |t| ensures t[j] == entries[j - start] {
      DecodedEntry(volume, base, t, start, volume[base + 4 * start..base + 4 * end], j - start);
    }
  }

  /** They decode to what lies there, table or not. */
  lemma DecodedWords(volume: seq<byte>, base: nat, start: nat, end: nat, entries: seq<nat>)
    requires start <= end && base + 4 * end <= |volume|
    requires entries == Entries(volume[base + 4 * start..base + 4 * end])
    ensures |entries| == end - start
    ensures forall j {:trigger EntryAt(volume, base, j)} :: start <= j < end ==> EntryAt(volume, base, j) == entries[j - start]
  {
    var words := volume[base + 4 * start..base + 4 * end];
    forall j | start <= j < end ensures EntryAt(volume, base, j) == entries[j - start] {
      SliceOfSlice(volume, base + 4 * start, 4 * (j - start), 4, words);
      EntriesAt(words, j - start);
    }
  }

  lemma InsideCluster(l: Layout, volume: seq<byte>, data: seq<seq<byte>>, c: nat, offset: nat, length: nat, from: nat)
    requires ClustersAt(l, volume, data) && 2 <= c < |data| && from == l.DataAddress(c) + offset
    ensures offset + length <= l.clusterSize ==>
              && |data[c]| == l.clusterSize && from + length <= |volume|
              && data[c][offset..offset + length] == volume[from..from + length]
  {
    assert ClusterAt(l, volume, c, data[c]);
    if offset + length <= l.clusterSize { SliceOfSlice(volume, from - offset, offset, length, data[c]); }
  }

  /** The entries from `at` on are that word and those behind it. */
  lemma FirstWord(words: seq<byte>, at: nat)
    requires at + 4 <= |words|
    ensures Entries(words[at..]) == [Entry(words[at..at + 4])] + Entries(words[at + 4..])
  {
    assert words[at..][..4] == words[at..at + 4];
    assert words[at..][4..] == words[at + 4..];
  }

  /** The loop that masks the words read from a FAT. */
  method MaskEntries(words: array<byte>, entries: array<nat>)
    requires words.Length == 4 * entries.Length
    modifies entries
    ensures entries[..] == Entries(words[..])
  {
    for i := 0 to entries.Length
      invariant Masked(words[..], 4 * i, entries[..i])
    {
      entries[i] := Entry(words[4 * i..4 * i + 4]);
      MaskedMore(words[..], 4 * i, entries[..i], entries[..i + 1], entries[i]);
    }
    AllMasked(words[..], entries[..entries.Length]);
    assert entries[..] == entries[..entries.Length];
  }

  /** The words in front of `at` are decoded. */
  ghost predicate Masked(words: seq<byte>, at: nat, entries: seq<nat>) {
    at <= |words| && entries + Entries(words[at..]) == Entries(words)
  }

  lemma MaskedMore(words: seq<byte>, at: nat, entries: seq<nat>, entries': seq<nat>, e: nat)
    requires Masked(words, at, entries) && at + 4 <= |words| && e == Entry(words[at..at + 4]) && entries' == entries + [e]
    ensures Masked(words, at + 4, entries')
  {
    FirstWord(words, at);
    assert entries + ([e] + Entries(words[at + 4..])) == entries' + Entries(words[at + 4..]);
  }

  lemma AllMasked(words: seq<byte>, entries: seq<nat>)
    requires Masked(words, |words|, entries)
    ensures entries == Entries(words)
  {
    assert entries + [] == entries;
  }

  /** The search of one batch. */
  method FirstFree(entries: array<nat>) returns (i: nat)
    ensures i <= entries.Length
    ensures i < entries.Length ==> entries[..][i] == FAT_ENTRY_FREE
    ensures forall j :: 0 <= j < i ==> entries[..][j] != FAT_ENTRY_FREE
  {
    i := 0;
    while i < entries.Length && entries[i] != FAT_ENTRY_FREE
      invariant i <= entries.Length
      invariant forall j :: 0 <= j < i ==> entries[j] != FAT_ENTRY_FREE
    {
      i := i + 1;
    }
  }

  /** The batch at `start` lies on the volume, and `i` is where its first zero entry stands. */
  ghost predicate BatchResult(l: Layout, volume: seq<byte>, start: nat, i: nat) {
    && i <= 512
    && (forall x: nat {:trigger ZeroEntry(l, volume, x)} :: start <= x < start + i ==> !ZeroEntry(l, volume, x))
    && (i < 512 ==> ZeroEntry(l, volume, start + i))
  }

  lemma ScanGoesOn(l: Layout, volume: seq<byte>, start: nat, i: nat)
    requires NoZeroEntry(l, volume, start) && BatchResult(l, volume, start, i) && start + 512 <= ScanLimit(l.totalSectorsBig)
    ensures if i < 512 then ScanResult(l, volume, start + i) else NoZeroEntry(l, volume, start + 512)
  {
  }

  lemma ScanEnds(l: Layout, volume: seq<byte>, start: nat)
    requires NoZeroEntry(l, volume, start) && start % 512 == 0 && start + 512 >= l.totalSectorsBig
    ensures ScanResult(l, volume, 0)
  {
    var limit := ScanLimit(l.totalSectorsBig);
    assert limit <= start;
    forall x: nat | x < limit ensures !ZeroEntry(l, volume, x) { }
  }

  lemma BatchDecoded(l: Layout, volume: seq<byte>, start: nat, entries: seq<nat>, i: nat)
    requires l.FatAddress(start + 512) <= |volume| && i <= 512
    requires entries == Entries(volume[l.FatAddress(start)..l.FatAddress(start + 512)])
    requires forall j :: 0 <= j < i && j < |entries| ==> entries[j] != FAT_ENTRY_FREE
    requires i < |entries| ==> entries[i] == FAT_ENTRY_FREE
    ensures BatchResult(l, volume, start, i)
  {
    DecodedWords(volume, l.fatAddress, start, start + 512, entries);
  }

  /** The clusters `getFreeFatEntryCluster` can hand out. */
  ghost predicate IsFree(l: Layout, fat: seq<nat>, c: nat) {
    2 <= c < |fat| && c < ScanLimit(l.totalSectorsBig) && fat[c] == FAT_ENTRY_FREE
  }

  ghost predicate IsLowestFree(l: Layout, fat: seq<nat>, c: nat) {
    IsFree(l, fat, c) && forall d: nat :: IsFree(l, fat, d) ==> c <= d
  }

  ghost predicate NoneFree(l: Layout, fat: seq<nat>) {
    forall d: nat :: !IsFree(l, fat, d)
  }

  class FatDevice {
    const layout: Layout
    const readStream: PartitionStream
    const writeStream: PartitionStream
    ghost var fat: seq<nat>
    ghost var fatCopy: seq<nat>
    ghost var data: seq<seq<byte>>

    ghost const disk: Disk

    /** `attachToDisk`, once the boot record has been read: two streams on the partition, and the
        tables its bytes hold. */
    constructor (disk: Disk, offset: nat, size: nat, boot: BootRecord, entries: nat,
                 ghost fat: seq<nat>, ghost fatCopy: seq<nat>, ghost data: seq<seq<byte>>)
      requires disk.Valid() && offset + size < disk.sizeBytes
      requires Represents(Mount(boot, entries), disk.store[offset..offset + size], fat, fatCopy, data)
      requires fat[0] != FAT_ENTRY_FREE && fat[1] != FAT_ENTRY_FREE
      requires boot.totalSectorsBig <= 0xFFFF_FFFF
      ensures Valid() && this.disk == disk && layout == Mount(boot, entries)
      ensures this.fat == fat && this.fatCopy == fatCopy && this.data == data
      ensures fresh(Footprint() - {disk})
    {
      this.disk := disk;
      layout := Mount(boot, entries);
      readStream := new PartitionStream(disk, offset, size, 0);
      writeStream := new PartitionStream(disk, offset, size, 0);
      this.fat, this.fatCopy, this.data := fat, fatCopy, data;
    }

    ghost function Footprint(): set<object> {
      {this, disk, readStream, readStream.diskStream, writeStream, writeStream.diskStream}
    }

    ghost function Volume(): seq<byte>
      requires readStream.diskStream.disk == disk && disk.Valid() && readStream.volumeOffset + readStream.volumeSize <= disk.sizeBytes
      reads disk`store
    {
      disk.store[readStream.volumeOffset..readStream.volumeOffset + readStream.volumeSize]
    }

    ghost predicate StreamReady(s: PartitionStream)
      reads s, s.diskStream, s.diskStream.disk`store
    {
      && s.diskStream.disk == disk
      && s.Valid()
      && s.volumeOffset + s.volumeSize < disk.sizeBytes
      && s.diskStream.position == s.volumeOffset + s.position && s.position <= s.volumeSize
    }

    /** Both streams stand on the partition. */
    ghost predicate Ready()
      reads Footprint()
    {
      && readStream.diskStream.disk == disk && writeStream.diskStream.disk == disk
      && writeStream.volumeOffset == readStream.volumeOffset && writeStream.volumeSize == readStream.volumeSize
      && readStream != writeStream && readStream.diskStream != writeStream.diskStream
      && StreamReady(readStream) && StreamReady(writeStream)
      && layout.totalSectorsBig <= 0xFFFF_FFFF
    }

    /** The ghost tables are what the bytes of the partition say. */
    ghost predicate Tables()
      reads `fat, `fatCopy, `data, disk`store
    {
      && readStream.diskStream.disk == disk && disk.Valid() && readStream.volumeOffset + readStream.volumeSize <= disk.sizeBytes
      && Represents(layout, Volume(), fat, fatCopy, data)
      && fat[0] != FAT_ENTRY_FREE && fat[1] != FAT_ENTRY_FREE
    }

    ghost predicate Valid()
      reads Footprint()
    {
      Ready() && Tables()
    }

    /** Seek, then read. */
    method ReadBytes(address: nat, out: array<byte>, at: nat, length: nat) returns (r: int)
      requires Ready() && at + length <= out.Length
      modifies readStream`position, readStream.diskStream`position, disk`faults, out
      ensures Ready()
      ensures disk.faults >= old(disk.faults)
      ensures r == SUCCESS ==>
                && disk.faults == old(disk.faults)
                && address + length <= |Volume()|
                && out[..] == Splice(old(out[..]), at, Volume()[address..address + length])
      ensures r == SUCCESS && at == 0 && length == out.Length ==> out[..] == Volume()[address..address + length]
      ensures r != SUCCESS ==> r < 0 && out[..] == old(out[..])
      ensures r != SUCCESS ==> disk.faults > old(disk.faults) || (r == -EDISKSPACE && (address >= |Volume()| || address + length > |Volume()|))
    {
      ghost var before := out[..];
      r := readStream.Seek(address);
      if r < 0 { return; }
      r := readStream.Read(out, at, length);
      if r == SUCCESS {
        ReadInWindow(disk.store, readStream.volumeOffset, Volume(), address, length, before, at, out[..]);
      }
    }

    /** One read of the entries `start..end` of the first FAT. */
    method GetMultipleFatEntries(start: nat, end: nat) returns (entries: array<nat>, r: int)
      requires Ready() && start < end
      modifies readStream`position, readStream.diskStream`position, disk`faults
      ensures Ready() && fresh(entries)
      ensures disk.faults >= old(disk.faults)
      ensures r == SUCCESS ==>
                && disk.faults == old(disk.faults)
                && layout.FatAddress(end) <= |Volume()| && entries.Length == end - start
                && entries[..] == Entries(Volume()[layout.FatAddress(start)..layout.FatAddress(end)])
      ensures r != SUCCESS ==> r < 0 && (disk.faults > old(disk.faults) || layout.FatAddress(end) > readStream.volumeSize)
    {
      var words := new byte[4 * (end - start)];
      entries := new nat[end - start];
      r := ReadBytes(start * 4 + layout.fatAddress, words, 0, 4 * (end - start));
      if r < 0 { return; }
      MaskEntries(words, entries);
    }

    /** One round of the scan: the first free entry of the batch at `start`, or its length. */
    method ScanBatch(start: nat) returns (i: nat, r: int)
      requires Ready()
      modifies readStream`position, readStream.diskStream`position, disk`faults
      ensures Ready()
      ensures disk.faults >= old(disk.faults)
      ensures r == SUCCESS ==> disk.faults == old(disk.faults) && i <= 512
      ensures Tables() && r == SUCCESS ==> forall j :: start <= j < start + i && j < |fat| ==> fat[j] != FAT_ENTRY_FREE
      ensures Tables() && r == SUCCESS && i < 512 && start + i < |fat| ==> fat[start + i] == FAT_ENTRY_FREE
      ensures r == SUCCESS ==> BatchResult(layout, Volume(), start, i)
      ensures r != SUCCESS ==> r < 0 && (disk.faults > old(disk.faults) || layout.FatAddress(start + 512) > readStream.volumeSize)
    {
      i := 0;
      var entries;
      entries, r := GetMultipleFatEntries(start, start + 512);
      if r == SUCCESS {
        i := FirstFree(entries);
        BatchDecoded(layout, Volume(), start, entries[..], i);
        if Tables() {
          DecodedEntries(Volume(), layout.fatAddress, fat, start, start + 512, entries[..]);
          assert forall j :: start <= j < start + i && j < |fat| ==> fat[j] == entries[..][j - start];
        }
      }
    }

    /** The scan for a free entry. It is bounded by the number of sectors, not of clusters, so on a
        full volume it may run past the last entry in use. */
    method GetFreeFatEntryCluster() returns (c: nat, r: int)
      requires Ready()
      modifies readStream`position, readStream.diskStream`position, disk`faults
      ensures Ready()
      ensures disk.faults >= old(disk.faults)
      ensures r == SUCCESS ==> disk.faults == old(disk.faults)
      ensures r != SUCCESS ==> r < 0 && c == 0
      ensures c <= 0xFFFF_FFFF
      ensures r == SUCCESS ==> ScanResult(layout, Volume(), c)
      ensures Tables() && disk.faults == old(disk.faults) && !NoneFree(layout, fat) ==> r == SUCCESS && IsLowestFree(layout, fat, c)
      ensures Tables() && NoneFree(layout, fat) ==> c == 0 || c >= layout.entries
      ensures Tables() && disk.faults == old(disk.faults) && NoneFree(layout, fat) && ScanLimit(layout.totalSectorsBig) <= layout.entries ==>
                r == SUCCESS && c == 0
    {
      r := SUCCESS;
      var start, end := 0, 512;
      ghost var batch := 0;
      while end < layout.totalSectorsBig
        invariant Ready() && old(Tables()) == Tables()
        invariant end == start + 512 && start == 512 * batch
        invariant start <= ScanLimit(layout.totalSectorsBig)
        invariant disk.faults == old(disk.faults) && r == SUCCESS
        invariant Tables() ==> forall j :: 0 <= j < start && j < |fat| ==> fat[j] != FAT_ENTRY_FREE
        invariant Volume() == old(Volume()) && NoZeroEntry(layout, Volume(), start)
      {
        assert end <= ScanLimit(layout.totalSectorsBig);
        var i;
        i, r := ScanBatch(start);
        if r < 0 {
          if Tables() && disk.faults == old(disk.faults) {
            assert layout.FatAddress(start + 512) > |Volume()| >= layout.FatAddress(layout.entries + 511);
            assert NoneFree(layout, fat);
          }
          return 0, r;
        }
        ScanGoesOn(layout, Volume(), start, i);
        if i < 512 {
          assert Tables() && start + i < |fat| ==> IsFree(layout, fat, start + i);
          return start + i, r;
        }
        start := start + 512;
        end := end + 512;
        batch := batch + 1;
      }
      ScanEnds(layout, Volume(), start);
      return 0, r;
    }

    method GetFatEntry(c: nat) returns (entry: nat, r: int)
      requires Ready()
      modifies readStream`position, readStream.diskStream`position, disk`faults
      ensures Ready()
      ensures disk.faults >= old(disk.faults)
      ensures entry <= FAT_ENTRY_AND
      ensures r == SUCCESS ==> disk.faults == old(disk.faults)
      ensures r == SUCCESS ==> layout.FatAddress(c) + 4 <= |Volume()| && entry == EntryAt(Volume(), layout.fatAddress, c)
      ensures r == -EDISKSPACE || r == SUCCESS || disk.faults > old(disk.faults)
      ensures old(Tables()) && c < layout.entries ==> (r == SUCCESS ==> entry == fat[c]) && (r != SUCCESS ==> disk.faults > old(disk.faults))
      ensures r != SUCCESS ==> r < 0
    {
      entry := 0;
      var word := new byte[4];
      r := ReadBytes(c * 4 + layout.fatAddress, word, 0, 4);
      if r < 0 { return; }
      if Tables() && c < layout.entries { assert EntryAt(Volume(), layout.fatAddress, c) == fat[c]; }
      entry := Entry(word[..]);
    }

    /** Seek into a cluster, to address `from` of the volume, and read a chunk, which may run on behind
        the end of the cluster. */
    method ReadCluster(c: nat, offset: nat, out: array<byte>, at: nat, length: nat, ghost from: nat) returns (r: int)
      requires Valid() && layout.InRange(c) && offset < layout.clusterSize && at + length <= out.Length
      requires from == layout.DataAddress(c) + offset
      modifies readStream`position, readStream.diskStream`position, disk`faults, out
      ensures Valid() && disk.faults >= old(disk.faults) && Volume() == old(Volume())
      ensures if r == SUCCESS then
                && disk.faults == old(disk.faults) && from + length <= |Volume()|
                && out[..] == Splice(old(out[..]), at, Volume()[from..from + length])
              else
                && r < 0 && out[..] == old(out[..])
                && (disk.faults > old(disk.faults) || (r == -EDISKSPACE && from + length > |Volume()|))
      ensures r == SUCCESS && offset + length <= layout.clusterSize ==>
                |data[c]| == layout.clusterSize && data[c][offset..offset + length] == Volume()[from..from + length]
    {
      InsideCluster(layout, Volume(), data, c, offset, length, from);
      r := ReadBytes(AddressInCluster(c, offset, from), out, at, length);
    }

    /** Where a byte of a cluster lies, as the driver computes it. */
    function AddressInCluster(c: nat, offset: nat, ghost from: nat): (address: nat)
      requires Valid() && layout.InRange(c) && offset < layout.clusterSize && from == layout.DataAddress(c) + offset
      reads Footprint()
      ensures address == from < |Volume()|
    {
      NoWrap(layout, |Volume()|, c);
      layout.DataAddress32(c) + offset
    }

    /** Seek, then write. */
    method WriteBytes(address: nat, bytes: seq<byte>) returns (r: int)
      requires Ready()
      modifies writeStream`position, writeStream.diskStream`position, disk
      ensures Ready()
      ensures disk.faults >= old(disk.faults)
      ensures r == SUCCESS ==>
                && disk.faults == old(disk.faults)
                && address + |bytes| <= |old(Volume())|
                && Volume() == Splice(old(Volume()), address, bytes)
      ensures r != SUCCESS ==> r < 0 && disk.store == old(disk.store)
      ensures r != SUCCESS ==> disk.faults > old(disk.faults) || address >= |Volume()| || address + |bytes| > |Volume()|
    {
      r := writeStream.Seek(address);
      if r < 0 { return; }
      ghost var before := disk.store;
      r := writeStream.Write(bytes);
      if r == SUCCESS {
        SpliceInWindow(before, writeStream.volumeOffset, writeStream.volumeSize, address, bytes);
      }
    }

    /** Both FATs get the value. When the second write fails the copies differ in this entry. Nothing
        keeps the driver from writing behind its tables. */
    method WriteFatEntry(c: nat, value: nat) returns (r: int)
      requires Ready() && value <= 0xFFFF_FFFF
      modifies `fat, `fatCopy, writeStream`position, writeStream.diskStream`position, disk
      ensures Ready()
      ensures disk.faults >= old(disk.faults)
      ensures r == SUCCESS ==> disk.faults == old(disk.faults)
      ensures r != SUCCESS ==> r < 0
      ensures r == SUCCESS || (disk.faults == old(disk.faults) && layout.FatAddress32(c) + 4 <= |Volume()|) ==>
                Volume() == FatPut(layout, old(Volume()), c, value)
      ensures old(Tables()) && EntryMayBe(c, value) ==>
                && Tables()
                && (r == SUCCESS ==> fat == old(fat)[c := value] && fatCopy == old(fatCopy)[c := value])
                && (r != SUCCESS ==> disk.faults > old(disk.faults) && fatCopy == old(fatCopy) && (fat == old(fat) || fat == old(fat)[c := value]))
    {
      ghost var sound := Tables() && EntryMayBe(c, value);
      if sound {
        NoWrap(layout, |Volume()|, c);
        FatWordWritten(layout, Volume(), fat, fatCopy, data, c, value);
      }
      r := WriteBytes(layout.FatAddress32(c), WordBytes(value));
      if r < 0 { return; }
      if sound {
        fat := fat[c := value];
        FatCopyWordWritten(layout, Volume(), fat, fatCopy, data, c, value);
      }
      r := WriteBytes(layout.FatCopyAddress32(c), WordBytes(value));
      if r < 0 { return; }
      if sound {
        fatCopy := fatCopy[c := value];
      }
    }

    /** An entry of the tables, and a value for it. The two reserved entries are never free. */
    ghost predicate EntryMayBe(c: nat, value: nat) {
      c < layout.entries && value <= FAT_ENTRY_AND && (c < 2 ==> value != FAT_ENTRY_FREE)
    }

    /** Seek into a cluster and write a chunk. */
    method WriteCluster(c: nat, offset: nat, chunk: seq<byte>) returns (r: int)
      requires Ready()
      modifies `data, writeStream`position, writeStream.diskStream`position, disk
      ensures Ready()
      ensures disk.faults >= old(disk.faults)
      ensures r == SUCCESS ==> disk.faults == old(disk.faults)
      ensures r != SUCCESS ==> r < 0
      ensures old(Tables()) && layout.InRange(c) && offset < layout.clusterSize && offset + |chunk| <= layout.clusterSize ==>
                && Tables()
                && |old(data)[c]| == layout.clusterSize
                && (r == SUCCESS ==> data == old(data)[c := Splice(old(data)[c], offset, chunk)])
                && (r != SUCCESS ==> disk.faults > old(disk.faults) && data == old(data))
      ensures r == SUCCESS ==> Volume() == Put(old(Volume()), layout.DataAddress32(c) + offset, chunk)
    {
      ghost var sound := Tables() && layout.InRange(c) && offset < layout.clusterSize && offset + |chunk| <= layout.clusterSize;
      if sound {
        NoWrap(layout, |Volume()|, c);
        ClusterWritten(layout, Volume(), fat, fatCopy, data, c, offset, chunk);
      }
      r := WriteBytes(layout.DataAddress32(c) + offset, chunk);
      if r == SUCCESS && sound {
        data := data[c := Splice(data[c], offset, chunk)];
      }
    }
  }
}
