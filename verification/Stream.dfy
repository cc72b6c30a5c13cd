/** `disk/stream.c`: unaligned reads and writes over a driver that only moves whole sectors. */
module Stream {
  import opened Bytes

  const SECTOR := 512

  /** A disk and its driver. `faults` counts driver errors and failed allocations; every contract
      that promises success does so for calls during which it does not grow. */
  class Disk {
    const sizeBytes: nat
    var store: seq<byte>
    ghost var faults: nat

    ghost predicate Valid()
      reads `store
    {
      |store| == sizeBytes && sizeBytes % SECTOR == 0
    }

    constructor (contents: seq<byte>)
      requires |contents| % SECTOR == 0
      ensures Valid() && store == contents && faults == 0
    {
      sizeBytes := |contents|;
      store := contents;
      faults := 0;
    }

    /** `driver->read`. A failing read leaves any bytes it likes in the sectors it was to fill. */
    method ReadSectors(lba: nat, total: nat, out: array<byte>) returns (r: int)
      requires Valid() && SECTOR * (lba + total) <= sizeBytes && SECTOR * total <= out.Length
      modifies out, `faults
      ensures r == SUCCESS || r == -EHARDWARE
      ensures r == SUCCESS ==> faults == old(faults)
      ensures r == SUCCESS ==> out[..SECTOR * total] == store[SECTOR * lba..SECTOR * (lba + total)]
      ensures r < 0 ==> faults > old(faults)
      ensures out[SECTOR * total..] == old(out[SECTOR * total..])
    {
      var broken: bool := *;
      if broken {
        faults := faults + 1;
        return -EHARDWARE;
      }
      Memcpy(out, 0, store[SECTOR * lba..SECTOR * (lba + total)]);
      return SUCCESS;
    }

    /** `driver->write`. */
    method WriteSectors(lba: nat, total: nat, data: array<byte>) returns (r: int)
      requires Valid() && SECTOR * (lba + total) <= sizeBytes && data.Length == SECTOR * total
      modifies this
      ensures Valid()
      ensures r == SUCCESS || r == -EHARDWARE
      ensures r == SUCCESS ==> faults == old(faults) && store == Splice(old(store), SECTOR * lba, data[..])
      ensures r < 0 ==> faults > old(faults) && store == old(store)
    {
      var broken: bool := *;
      if broken {
        faults := faults + 1;
        return -EHARDWARE;
      }
      store := Splice(store, SECTOR * lba, data[..]);
      return SUCCESS;
    }

    /** `kzalloc` for a sector buffer: zeroed, or null. */
    method AllocBuffer(size: nat) returns (buffer: array?<byte>)
      modifies `faults
      ensures buffer == null ==> faults > old(faults)
      ensures buffer != null ==> fresh(buffer) && buffer.Length == size && faults == old(faults)
      ensures buffer != null ==> forall i :: 0 <= i < size ==> buffer[i] == 0
    {
      var full: bool := *;
      if full {
        faults := faults + 1;
        return null;
      }
      buffer := new byte[size](_ => 0);
    }
  }

  /** Sectors touched by `length` bytes that start `offset` bytes into a sector. */
  function SectorCount(offset: nat, length: nat): (n: nat)
    ensures SECTOR * n >= offset + length
    ensures SECTOR * n < offset + length + SECTOR
  {
    (offset + length) / SECTOR + if (offset + length) % SECTOR > 0 then 1 else 0
  }

  lemma SectorsFit(position: nat, length: nat, size: nat)
    requires position + length <= size && size % SECTOR == 0
    ensures SECTOR * (position / SECTOR + SectorCount(position % SECTOR, length)) <= size
  {
  }

  lemma PieceOfSectors(s: seq<byte>, base: nat, offset: nat, length: nat, window: seq<byte>, position: nat)
    requires base + |window| <= |s| && window == s[base..base + |window|] && offset + length <= |window| && position == base + offset
    ensures window[offset..offset + length] == s[position..position + length]
  {
    SliceOfSlice(s, base, offset, length, window);
  }

  /** The buffer after its head, the data and its tail were put there. */
  lemma BufferParts(s: seq<byte>, base: nat, offset: nat, data: seq<byte>, first: seq<byte>, filled: seq<byte>, window: seq<byte>, end: nat)
    requires end == offset + |data| <= |window| == |first| && base + |window| <= |s|
    requires first[..offset] == s[base..base + offset] && filled == Splice(first, offset, data)
    requires window[..end] == filled[..end] && window[end..] == s[base + end..base + |window|]
    ensures Splice(s, base, window) == Splice(s, base + offset, data)
  {
    assert window[..offset] == filled[..end][..offset] == first[..offset];
    assert window[offset..end] == filled[..end][offset..] == data;
    EdgesKept(s, base, offset, data, window);
  }

  lemma EdgesKept(s: seq<byte>, base: nat, offset: nat, data: seq<byte>, window: seq<byte>)
    requires base + |window| <= |s| && offset + |data| <= |window|
    requires window[..offset] == s[base..base + offset]
    requires window[offset..offset + |data|] == data
    requires window[offset + |data|..] == s[base + offset + |data|..base + |window|]
    ensures Splice(s, base, window) == Splice(s, base + offset, data)
  {
    forall i | 0 <= i < |s| ensures Splice(s, base, window)[i] == Splice(s, base + offset, data)[i] {
      if base + offset + |data| <= i < base + |window| {
        assert window[i - base] == window[offset + |data|..][i - base - offset - |data|];
      } else if base + offset <= i < base + offset + |data| {
        assert window[i - base] == window[offset..offset + |data|][i - base - offset];
      } else if base <= i < base + offset {
        assert window[i - base] == window[..offset][i - base];
      }
    }
  }

  class DiskStream {
    const disk: Disk
    var position: nat

    constructor (disk: Disk, position: nat)
      ensures this.disk == disk && this.position == position
    {
      this.disk := disk;
      this.position := position;
    }

    /** A stream that stands at the end of its disk refuses to move, and the bound on the target
        is `512` times too generous. */
    method Seek(target: nat) returns (r: int)
      modifies `position
      ensures r == if old(position) >= disk.sizeBytes then -ENMEM
                   else if target > disk.sizeBytes * SECTOR then -EDISKSPACE else SUCCESS
      ensures position == if r == SUCCESS then target else old(position)
    {
      if position >= disk.sizeBytes { return -ENMEM; }
      if target > disk.sizeBytes * SECTOR { return -EDISKSPACE; }
      position := target;
      return SUCCESS;
    }

    /** A read is a slice of the flat disk, whatever the alignment. */
    method Read(out: array<byte>, at: nat, length: nat) returns (r: int)
      requires disk.Valid() && at + length <= out.Length
      modifies `position, out, disk`faults
      ensures r == SUCCESS || r == -ENMEM || r == -EHARDWARE
      ensures r == SUCCESS ==>
                && old(position) < disk.sizeBytes
                && old(position) + length <= disk.sizeBytes
                && disk.faults == old(disk.faults)
                && position == old(position) + length
                && out[..] == Splice(old(out[..]), at, disk.store[old(position)..old(position) + length])
      ensures r < 0 ==> position == old(position) && out[..] == old(out[..])
      ensures disk.faults >= old(disk.faults)
      ensures r < 0 ==> disk.faults > old(disk.faults) || position >= disk.sizeBytes || position + length > disk.sizeBytes
    {
      if position >= disk.sizeBytes { return -ENMEM; }
      if position + length > disk.sizeBytes { return -ENMEM; }

      var currLba := position / SECTOR;
      var currLbaPos := position % SECTOR;
      var totalLba := (currLbaPos + length) / SECTOR;
      if (currLbaPos + length) % SECTOR > 0 {
        totalLba := totalLba + 1;
      }
      SectorsFit(position, length, disk.sizeBytes);

      var buffer := disk.AllocBuffer(totalLba * SECTOR);
      if buffer == null { return -ENMEM; }

      r := disk.ReadSectors(currLba, totalLba, buffer);
      if r < 0 { return r; }

      var bytes := buffer[currLbaPos..currLbaPos + length];
      assert bytes == disk.store[position..position + length] by {
        assert buffer[..] == buffer[..SECTOR * totalLba];
        PieceOfSectors(disk.store, SECTOR * currLba, currLbaPos, length, buffer[..], position);
        assert buffer[..][currLbaPos..currLbaPos + length] == bytes;
      }
      position := position + length;
      Memcpy(out, at, bytes);
      return SUCCESS;
    }

    /** The bytes in front of a write that starts inside sector `lba`. */
    method LoadHead(lba: nat, offset: nat, buffer: array<byte>) returns (r: int)
      requires disk.Valid() && SECTOR * (lba + 1) <= disk.sizeBytes
      requires offset <= SECTOR <= buffer.Length
      modifies buffer, disk`faults
      ensures r == SUCCESS || r == -EHARDWARE
      ensures r == SUCCESS ==> disk.faults == old(disk.faults)
      ensures r == SUCCESS ==> buffer[..offset] == disk.store[SECTOR * lba..SECTOR * lba + offset]
      ensures r < 0 ==> disk.faults > old(disk.faults)
    {
      r := disk.ReadSectors(lba, 1, buffer);
      if r == SUCCESS {
        SliceOfSlice(disk.store, SECTOR * lba, 0, offset, buffer[..SECTOR]);
        assert buffer[..SECTOR][0..offset] == buffer[..offset];
      }
    }

    /** The bytes behind a write that ends, `end` bytes after the start of sector `lba`, inside the
        last of `total` sectors. */
    method LoadTail(lba: nat, total: nat, end: nat, buffer: array<byte>) returns (r: int)
      requires disk.Valid() && SECTOR * (lba + total) <= disk.sizeBytes
      requires total > 0 && buffer.Length == SECTOR * total
      requires SECTOR * (total - 1) < end < SECTOR * total
      modifies buffer, disk`faults
      ensures r == SUCCESS || r == -EHARDWARE
      ensures r == SUCCESS ==> disk.faults == old(disk.faults)
      ensures r == SUCCESS ==> buffer[..end] == old(buffer[..end])
      ensures r == SUCCESS ==> buffer[end..] == disk.store[SECTOR * lba + end..SECTOR * (lba + total)]
      ensures r < 0 ==> disk.faults > old(disk.faults)
    {
      var last := new byte[SECTOR];
      r := disk.ReadSectors(lba + total - 1, 1, last);
      if r < 0 { return r; }
      var offset := end % SECTOR;
      assert end == SECTOR * (total - 1) + offset;
      assert last[..SECTOR] == last[..];
      SliceOfSlice(disk.store, SECTOR * (lba + total - 1), offset, SECTOR - offset, last[..]);
      ghost var was := buffer[..];
      Memcpy(buffer, SECTOR * (total - 1) + offset, last[offset..SECTOR]);
      assert buffer[..end] == was[..end];
      assert buffer[end..] == last[offset..SECTOR];
    }

    /** The read-modify part of a write: `buffer` becomes the `totalLba` sectors as the write will
        leave them. */
    method FillSectors(currLba: nat, currLbaPos: nat, totalLba: nat, data: seq<byte>, buffer: array<byte>) returns (r: int)
      requires disk.Valid() && SECTOR * (currLba + totalLba) <= disk.sizeBytes
      requires buffer.Length == SECTOR * totalLba
      requires currLbaPos < SECTOR && totalLba == SectorCount(currLbaPos, |data|)
      modifies buffer, disk`faults
      ensures r == SUCCESS || r == -EHARDWARE
      ensures r == SUCCESS ==> disk.faults == old(disk.faults)
      ensures r == SUCCESS ==>
                Splice(disk.store, SECTOR * currLba, buffer[..]) == Splice(disk.store, SECTOR * currLba + currLbaPos, data)
      ensures r < 0 ==> disk.faults > old(disk.faults)
    {
      r := SUCCESS;
      if currLbaPos > 0 {
        r := LoadHead(currLba, currLbaPos, buffer);
        if r < 0 { return r; }
      }
      ghost var base, end := SECTOR * currLba, currLbaPos + |data|;
      ghost var first := buffer[..];
      assert first[..currLbaPos] == disk.store[base..base + currLbaPos];
      Memcpy(buffer, currLbaPos, data);
      ghost var filled := buffer[..];
      if (currLbaPos + |data|) % SECTOR != 0 {
        r := LoadTail(currLba, totalLba, currLbaPos + |data|, buffer);
        if r < 0 { return r; }
      } else {
        assert end == buffer.Length;
      }
      assert buffer[..][end..] == disk.store[base + end..base + buffer.Length];
      assert buffer[..][..end] == buffer[..end] == filled[..end];
      BufferParts(disk.store, base, currLbaPos, data, first, filled, buffer[..], end);
    }

    /** A write is a splice of the flat disk: the bytes of the first and last sector that the call
        does not name keep their value, also when both are the same sector. */
    method Write(data: seq<byte>) returns (r: int)
      requires disk.Valid()
      modifies `position, disk
      ensures disk.Valid()
      ensures r == SUCCESS || r == -ENMEM || r == -EHARDWARE
      ensures r == SUCCESS ==>
                && old(position) < disk.sizeBytes
                && old(position) + |data| <= disk.sizeBytes
                && disk.faults == old(disk.faults)
                && position == old(position) + |data|
                && disk.store == Splice(old(disk.store), old(position), data)
      ensures r < 0 ==> position == old(position) && disk.store == old(disk.store)
      ensures disk.faults >= old(disk.faults)
      ensures r < 0 ==> disk.faults > old(disk.faults) || position >= disk.sizeBytes || position + |data| > disk.sizeBytes
    {
      if position >= disk.sizeBytes { return -ENMEM; }
      if position + |data| > disk.sizeBytes { return -ENMEM; }

      var length := |data|;
      var currLba := position / SECTOR;
      var currLbaPos := position % SECTOR;
      var totalLba := (currLbaPos + length) / SECTOR;
      if (currLbaPos + length) % SECTOR > 0 {
        totalLba := totalLba + 1;
      }
      SectorsFit(position, length, disk.sizeBytes);

      var buffer := disk.AllocBuffer(totalLba * SECTOR);
      if buffer == null { return -ENMEM; }

      r := FillSectors(currLba, currLbaPos, totalLba, data, buffer);
      if r < 0 { return r; }
      r := disk.WriteSectors(currLba, totalLba, buffer);
      if r < 0 { return r; }
      position := position + length;
      return SUCCESS;
    }
  }
}
