/** Where `driver/fat32.c` keeps the two FATs and the data clusters of a volume, and what the bytes
    of a volume mean. Section 4 of the Microsoft FAT Specification (2005) fixes the entry format. */
module FatLayout {
  import opened Bytes

  const FAT_ENTRY_FREE := 0
  const FAT_ENTRY_USED := 0x0FFF_FFFF
  const FAT_ENTRY_AND := 0x0FFF_FFFF

  /** The fields of the boot record that `attachToDisk` uses. */
  datatype BootRecord = BootRecord(
    bytesPerSector: nat, sectorsPerCluster: nat, reservedSectors: nat, fatCopies: nat,
    sectorsPerFat32: nat, totalSectorsBig: nat)

  /** `entries` is one more than the highest cluster number: the number of FAT entries in use. */
  datatype Layout = Layout(
    clusterSize: nat, fatAddress: nat, fatCopyStartAddress: nat, dataClusterStartAddress: nat,
    entries: nat, totalSectorsBig: nat)
  {
    /** `clusterToFATTableAddress`. */
    function FatAddress(c: nat): nat { fatAddress + 4 * c }

    /** `clusterToFATCopyTableAddress`. */
    function FatCopyAddress(c: nat): nat { fatCopyStartAddress + 4 * c }

    /** `dataClusterToAbsoluteAddress`. */
    function DataAddress(c: nat): nat
      requires 2 <= c
    {
      Times(c - 2, clusterSize) + dataClusterStartAddress
    }

    /** The same three addresses as the driver computes them, in 32 bits. */
    function FatAddress32(c: nat): nat { FatAddress(c) % 0x1_0000_0000 }

    function FatCopyAddress32(c: nat): nat { FatCopyAddress(c) % 0x1_0000_0000 }

    function DataAddress32(c: nat): nat {
      (Times(if c < 2 then c + 0xFFFF_FFFE else c - 2, clusterSize) + dataClusterStartAddress) % 0x1_0000_0000
    }

    predicate InRange(c: nat) { 2 <= c < entries }

    /** The regions follow each other inside the volume, and no address of the driver's 32-bit
        arithmetic wraps. Chunk lengths are 16-bit, so a cluster stays below 64 KiB. The last
        batch of the free-cluster scan that meets an entry in use ends inside the volume. */
    ghost predicate Fits(volumeSize: nat) {
      && 0 < clusterSize <= 0xFFFF
      && 2 < entries <= 0x0FFF_FFF7
      && FatAddress(entries) <= fatCopyStartAddress
      && FatCopyAddress(entries) <= dataClusterStartAddress
      && DataAddress(entries) <= volumeSize <= 0x1_0000_0000
      && FatAddress(entries + 511) <= volumeSize
    }
  }

  /** Entries looked at by `getFreeFatEntryCluster`: batches of 512 whose end is below the number of
      sectors of the volume. */
  function ScanLimit(totalSectors: nat): (n: nat)
    ensures n % 512 == 0 && (n < totalSectors || n == 0) && totalSectors <= n + 512
  {
    if totalSectors == 0 then 0 else (totalSectors - 1) / 512 * 512
  }

  /** `attachToDisk`. */
  function Mount(boot: BootRecord, entries: nat): Layout {
    var fatSize := boot.sectorsPerFat32 * boot.bytesPerSector;
    var fatAddress := boot.reservedSectors * boot.bytesPerSector;
    Layout(
      boot.bytesPerSector * boot.sectorsPerCluster,
      fatAddress,
      fatAddress + fatSize,
      fatAddress + Times(boot.fatCopies, fatSize),
      entries,
      boot.totalSectorsBig)
  }

  /** The driver always keeps a second FAT behind the first. Its entries stay clear of the data
      clusters exactly when the boot record announces at least two copies. */
  lemma MountedRegionsApart(boot: BootRecord, entries: nat)
    requires 0 < 4 * entries <= boot.sectorsPerFat32 * boot.bytesPerSector
    ensures var l := Mount(boot, entries);
            && l.FatAddress(entries) <= l.fatCopyStartAddress
            && (l.FatCopyAddress(entries) <= l.dataClusterStartAddress <==> boot.fatCopies >= 2)
  {
    var fatSize := boot.sectorsPerFat32 * boot.bytesPerSector;
    assert Times(0, fatSize) == 0 && Times(1, fatSize) == fatSize;
    if boot.fatCopies >= 2 { TimesApart(1, boot.fatCopies, fatSize); }
  }

  /** Distinct clusters own disjoint bytes behind both FATs. */
  lemma ClustersApart(l: Layout, c: nat, d: nat)
    requires 2 <= c < d
    ensures l.DataAddress(c) + l.clusterSize <= l.DataAddress(d)
    ensures l.dataClusterStartAddress <= l.DataAddress(c)
  {
    TimesApart(c - 2, d - 2, l.clusterSize);
  }

  /** For the clusters of a volume that fits, no address wraps. */
  lemma NoWrap(l: Layout, volumeSize: nat, c: nat)
    requires l.Fits(volumeSize) && c < l.entries
    ensures l.FatAddress32(c) == l.FatAddress(c) && l.FatCopyAddress32(c) == l.FatCopyAddress(c)
    ensures l.FatAddress(c) + 4 <= volumeSize && l.FatCopyAddress(c) + 4 <= volumeSize
    ensures l.InRange(c) ==> l.DataAddress32(c) == l.DataAddress(c) && l.DataAddress(c) + l.clusterSize <= volumeSize
  {
    ClustersApart(l, if c < 2 then 2 else c, l.entries);
  }

  /** The driver takes cluster 0 to lie two clusters in front of the first one: among the FATs. */
  lemma ClusterZero(l: Layout)
    requires 0 < l.clusterSize && 2 * l.clusterSize <= l.dataClusterStartAddress < 0x1_0000_0000
    ensures l.DataAddress32(0) == l.dataClusterStartAddress - 2 * l.clusterSize
  {
    TimesIsProduct(0xFFFF_FFFE, l.clusterSize);
    var below := l.dataClusterStartAddress - 2 * l.clusterSize;
    assert Times(0xFFFF_FFFE, l.clusterSize) + l.dataClusterStartAddress == 0x1_0000_0000 * l.clusterSize + below;
    WholeTurns(below, l.clusterSize);
  }

  lemma {:induction false} WholeTurns(n: nat, turns: nat)
    requires n < 0x1_0000_0000
    ensures (0x1_0000_0000 * turns + n) % 0x1_0000_0000 == n
  {
    if turns > 0 { WholeTurns(n, turns - 1); }
  }

  // ----- what the bytes mean

  /** A little-endian word. */
  function Word(b: seq<byte>): nat {
    if b == [] then 0
    else
      var low: nat := b[0];
      low + 0x100 * Word(b[1..])
  }

  /** The `n` bytes of a little-endian word. */
  function LowBytes(n: nat, w: nat): (b: seq<byte>)
    ensures |b| == n
  {
    if n == 0 then [] else [w % 0x100] + LowBytes(n - 1, w / 0x100)
  }

  function Power256(n: nat): nat {
    if n == 0 then 1 else 0x100 * Power256(n - 1)
  }

  lemma {:induction false} WordOfBytes(n: nat, w: nat)
    requires w < Power256(n)
    ensures Word(LowBytes(n, w)) == w
  {
    if n > 0 {
      WordOfBytes(n - 1, w / 0x100);
      assert LowBytes(n, w)[1..] == LowBytes(n - 1, w / 0x100);
    }
  }

  function WordBytes(w: nat): (b: seq<byte>)
    requires w < 0x1_0000_0000
    ensures |b| == 4 && Word(b) == w
  {
    assert Power256(4) == 0x1_0000_0000 by { assert Power256(2) == 0x1_0000; }
    WordOfBytes(4, w);
    LowBytes(4, w)
  }

  /** A FAT entry is the low 28 bits of its word. */
  function Entry(b: seq<byte>): nat
    requires |b| == 4
  {
    Word(b) % (FAT_ENTRY_AND + 1)
  }

  /** The words of `b`, masked. */
  function Entries(b: seq<byte>): (r: seq<nat>)
    ensures |r| == |b| / 4
  {
    if |b| < 4 then [] else [Entry(b[..4])] + Entries(b[4..])
  }

  lemma {:induction false} EntriesAt(b: seq<byte>, i: nat)
    requires 4 * i + 4 <= |b|
    ensures Entries(b)[i] == Entry(b[4 * i..4 * i + 4])
    decreases i
  {
    if i > 0 {
      EntriesAt(b[4..], i - 1);
      SliceOfSlice(b, 4, 4 * (i - 1), 4, b[4..]);
    }
  }

  /** Entry `c` of the table at `base`. */
  function EntryAt(volume: seq<byte>, base: nat, c: nat): nat
    requires base + 4 * c + 4 <= |volume|
  {
    Entry(volume[base + 4 * c..base + 4 * c + 4])
  }

  /** The volume with the bytes `d` at an address inside it. */
  function Put(volume: seq<byte>, at: nat, d: seq<byte>): (r: seq<byte>)
    ensures |r| == |volume|
  {
    if at + |d| <= |volume| then Splice(volume, at, d) else volume
  }

  /** The volume after entry `c` was written to both FATs. */
  function FatPut(l: Layout, volume: seq<byte>, c: nat, v: nat): (r: seq<byte>)
    requires v < 0x1_0000_0000
    ensures |r| == |volume|
  {
    Put(Put(volume, l.FatAddress32(c), WordBytes(v)), l.FatCopyAddress32(c), WordBytes(v))
  }

  /** Entry `c` of the first FAT, or what lies behind it on the volume, is zero. */
  ghost predicate ZeroEntry(l: Layout, volume: seq<byte>, c: nat) {
    l.FatAddress(c) + 4 <= |volume| && EntryAt(volume, l.fatAddress, c) == FAT_ENTRY_FREE
  }

  /** What the scan finds on any volume: the first zero entry within its limit, or 0 if there is none. */
  ghost predicate ScanResult(l: Layout, volume: seq<byte>, c: nat) {
    if c == 0 && !ZeroEntry(l, volume, 0) then NoZeroEntry(l, volume, ScanLimit(l.totalSectorsBig))
    else (c == 0 || c < ScanLimit(l.totalSectorsBig)) && ZeroEntry(l, volume, c) && NoZeroEntry(l, volume, c)
  }

  ghost predicate NoZeroEntry(l: Layout, volume: seq<byte>, end: nat) {
    forall x: nat {:trigger ZeroEntry(l, volume, x)} :: x < end ==> !ZeroEntry(l, volume, x)
  }

  /** Entry `c` of the first FAT, or what lies behind it, reads as the end of a chain. */
  ghost predicate ReadsAsEnd(l: Layout, volume: seq<byte>, c: nat) {
    l.FatAddress(c) + 4 <= |volume| && EntryAt(volume, l.fatAddress, c) == FAT_ENTRY_USED
  }

  /** The volume after `c` was linked behind `last`. */
  function LinkPut(l: Layout, volume: seq<byte>, last: nat, c: nat): (r: seq<byte>)
    requires c < 0x1_0000_0000
    ensures |r| == |volume|
  {
    FatPut(l, FatPut(l, volume, last, c), c, FAT_ENTRY_USED)
  }

  lemma LinkedEnd(l: Layout, volume: seq<byte>, volumeSize: nat, last: nat, c: nat)
    requires l.Fits(volumeSize) && |volume| == volumeSize && c < 0x1_0000_0000 && l.FatAddress(c) + 4 <= volumeSize
    ensures ReadsAsEnd(l, LinkPut(l, volume, last, c), c)
  {
    EntryReadsBack(l, FatPut(l, volume, last, c), c, FAT_ENTRY_USED);
  }

  /** An entry just written reads back, wherever it lies. */
  lemma EntryReadsBack(l: Layout, volume: seq<byte>, c: nat, v: nat)
    requires l.FatAddress(c) + 4 <= |volume| <= 0x1_0000_0000 && v <= FAT_ENTRY_AND
    requires l.fatAddress + 4 <= l.fatCopyStartAddress && l.fatCopyStartAddress + 4 <= |volume|
    ensures EntryAt(FatPut(l, volume, c, v), l.fatAddress, c) == v
  {
    var first := Put(volume, l.FatAddress32(c), WordBytes(v));
    assert first[l.FatAddress(c)..l.FatAddress(c) + 4] == WordBytes(v);
    if l.FatCopyAddress32(c) + 4 <= |volume| {
      SliceKept(first, l.FatCopyAddress32(c), WordBytes(v), l.FatAddress(c), l.FatAddress(c) + 4);
    }
  }

  /** The words from `base` on are the entries `t`. */
  ghost predicate TableAt(volume: seq<byte>, base: nat, t: seq<nat>) {
    && base + 4 * |t| <= |volume|
    && forall c: nat {:trigger EntryAt(volume, base, c)} :: c < |t| ==> EntryAt(volume, base, c) == t[c]
  }

  /** `n` bytes of a volume from `offset` on in cluster `c`, and on behind its end. */
  function ClusterBytes(l: Layout, volume: seq<byte>, c: nat, offset: nat, n: nat): (r: seq<byte>)
    requires 2 <= c && l.DataAddress(c) + offset + n <= |volume|
    ensures |r| == n
  {
    volume[l.DataAddress(c) + offset..l.DataAddress(c) + offset + n]
  }

  /** Cluster `c` of a volume. */
  ghost predicate ClusterAt(l: Layout, volume: seq<byte>, c: nat, content: seq<byte>)
    requires 2 <= c
  {
    var own := l.DataAddress(c);
    own + l.clusterSize <= |volume| && content == volume[own..own + l.clusterSize]
  }

  ghost predicate ClustersAt(l: Layout, volume: seq<byte>, data: seq<seq<byte>>) {
    forall c: nat {:trigger ClusterAt(l, volume, c, data[c])} :: 2 <= c < |data| ==> ClusterAt(l, volume, c, data[c])
  }

  /** The volume as two tables and an array of clusters. */
  ghost predicate Represents(l: Layout, volume: seq<byte>, fat: seq<nat>, fatCopy: seq<nat>, data: seq<seq<byte>>) {
    && l.Fits(|volume|)
    && |fat| == |fatCopy| == |data| == l.entries
    && TableAt(volume, l.fatAddress, fat)
    && TableAt(volume, l.fatCopyStartAddress, fatCopy)
    && ClustersAt(l, volume, data)
  }

  lemma ClusterSizes(l: Layout, volume: seq<byte>, fat: seq<nat>, fatCopy: seq<nat>, data: seq<seq<byte>>)
    requires Represents(l, volume, fat, fatCopy, data)
    ensures forall c {:trigger data[c]} :: 2 <= c < |data| ==> |data[c]| == l.clusterSize
  {
    forall c: nat | 2 <= c < |data| ensures |data[c]| == l.clusterSize {
      assert ClusterAt(l, volume, c, data[c]);
    }
  }

  lemma SliceKept(volume: seq<byte>, at: nat, d: seq<byte>, lo: nat, hi: nat)
    requires at + |d| <= |volume| && lo <= hi <= |volume|
    requires hi <= at || at + |d| <= lo
    ensures Splice(volume, at, d)[lo..hi] == volume[lo..hi]
  {
  }

  lemma TableKept(volume: seq<byte>, base: nat, t: seq<nat>, at: nat, d: seq<byte>)
    requires TableAt(volume, base, t) && at + |d| <= |volume|
    requires at + |d| <= base || base + 4 * |t| <= at
    ensures TableAt(Splice(volume, at, d), base, t)
  {
    forall c: nat | c < |t| ensures EntryAt(Splice(volume, at, d), base, c) == t[c] {
      assert EntryAt(volume, base, c) == t[c];
      SliceKept(volume, at, d, base + 4 * c, base + 4 * c + 4);
    }
  }

  lemma TableWritten(volume: seq<byte>, base: nat, t: seq<nat>, c: nat, v: nat)
    requires TableAt(volume, base, t) && c < |t| && v <= FAT_ENTRY_AND
    ensures TableAt(Splice(volume, base + 4 * c, WordBytes(v)), base, t[c := v])
  {
    var after := Splice(volume, base + 4 * c, WordBytes(v));
    forall e: nat | e < |t| ensures EntryAt(after, base, e) == t[c := v][e] {
      if e == c {
        assert after[base + 4 * e..base + 4 * e + 4] == WordBytes(v);
      } else {
        assert t[e] == EntryAt(volume, base, e);
        SliceKept(volume, base + 4 * c, WordBytes(v), base + 4 * e, base + 4 * e + 4);
      }
    }
  }

  lemma ClusterKept(l: Layout, volume: seq<byte>, c: nat, content: seq<byte>, at: nat, d: seq<byte>)
    requires 2 <= c && ClusterAt(l, volume, c, content) && at + |d| <= |volume|
    requires at + |d| <= l.DataAddress(c) || l.DataAddress(c) + l.clusterSize <= at
    ensures ClusterAt(l, Splice(volume, at, d), c, content)
  {
    var own := l.DataAddress(c);
    SliceKept(volume, at, d, own, own + l.clusterSize);
  }

  lemma ClusterPatched(l: Layout, volume: seq<byte>, c: nat, content: seq<byte>, offset: nat, chunk: seq<byte>)
    requires 2 <= c && ClusterAt(l, volume, c, content) && offset + |chunk| <= l.clusterSize
    ensures |content| == l.clusterSize && l.DataAddress(c) + offset + |chunk| <= |volume|
    ensures ClusterAt(l, Splice(volume, l.DataAddress(c) + offset, chunk), c, Splice(content, offset, chunk))
  {
    var own := l.DataAddress(c);
    assert Splice(volume, own + offset, chunk)[own..own + l.clusterSize] == Splice(content, offset, chunk);
  }

  lemma ClustersKept(l: Layout, volume: seq<byte>, data: seq<seq<byte>>, at: nat, d: seq<byte>)
    requires ClustersAt(l, volume, data) && at + |d| <= |volume| && at + |d| <= l.dataClusterStartAddress
    ensures ClustersAt(l, Splice(volume, at, d), data)
  {
    forall c: nat | 2 <= c < |data| ensures ClusterAt(l, Splice(volume, at, d), c, data[c]) {
      ClustersApart(l, c, |data|);
      assert ClusterAt(l, volume, c, data[c]);
      ClusterKept(l, volume, c, data[c], at, d);
    }
  }

  /** Writing an entry of the first FAT changes that entry and nothing else. */
  lemma FatWordWritten(l: Layout, volume: seq<byte>, fat: seq<nat>, fatCopy: seq<nat>, data: seq<seq<byte>>, c: nat, v: nat)
    requires Represents(l, volume, fat, fatCopy, data)
    requires c < l.entries && v <= FAT_ENTRY_AND
    ensures Represents(l, Splice(volume, l.FatAddress(c), WordBytes(v)), fat[c := v], fatCopy, data)
  {
    TableWritten(volume, l.fatAddress, fat, c, v);
    TableKept(volume, l.fatCopyStartAddress, fatCopy, l.FatAddress(c), WordBytes(v));
    ClustersKept(l, volume, data, l.FatAddress(c), WordBytes(v));
  }

  /** Writing an entry of the second FAT changes that entry and nothing else. */
  lemma FatCopyWordWritten(l: Layout, volume: seq<byte>, fat: seq<nat>, fatCopy: seq<nat>, data: seq<seq<byte>>, c: nat, v: nat)
    requires Represents(l, volume, fat, fatCopy, data)
    requires c < l.entries && v <= FAT_ENTRY_AND
    ensures Represents(l, Splice(volume, l.FatCopyAddress(c), WordBytes(v)), fat, fatCopy[c := v], data)
  {
    TableWritten(volume, l.fatCopyStartAddress, fatCopy, c, v);
    TableKept(volume, l.fatAddress, fat, l.FatCopyAddress(c), WordBytes(v));
    ClustersKept(l, volume, data, l.FatCopyAddress(c), WordBytes(v));
  }

  /** Writing inside a cluster changes that cluster and nothing else. */
  lemma ClusterWritten(l: Layout, volume: seq<byte>, fat: seq<nat>, fatCopy: seq<nat>, data: seq<seq<byte>>,
                       c: nat, offset: nat, chunk: seq<byte>)
    requires Represents(l, volume, fat, fatCopy, data)
    requires l.InRange(c) && offset + |chunk| <= l.clusterSize
    ensures l.DataAddress(c) + l.clusterSize <= |volume| && |data[c]| == l.clusterSize
    ensures Represents(l, Splice(volume, l.DataAddress(c) + offset, chunk), fat, fatCopy,
                       data[c := Splice(data[c], offset, chunk)])
  {
    assert ClusterAt(l, volume, c, data[c]);
    ClusterPatched(l, volume, c, data[c], offset, chunk);
    ClustersApart(l, c, l.entries);
    var at := l.DataAddress(c) + offset;
    forall d: nat | 2 <= d < |data| && d != c ensures ClusterAt(l, Splice(volume, at, chunk), d, data[d]) {
      assert ClusterAt(l, volume, d, data[d]);
      if d < c { ClustersApart(l, d, c); } else { ClustersApart(l, c, d); }
      ClusterKept(l, volume, d, data[d], at, chunk);
    }
    TableKept(volume, l.fatAddress, fat, at, chunk);
    TableKept(volume, l.fatCopyStartAddress, fatCopy, at, chunk);
  }
}
