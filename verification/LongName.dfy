/** Long file names in `vfsl/driver/fat32.c`: 32-byte directory entries of 13 characters each. */
module LongNames {
  import opened Bytes

  const LAST_FLAG := 0x40
  const ATTRIBUTE_LFN: byte := 0x0F
  const PADDING: nat := 0xFFFF

  type Entry = e: seq<byte> | |e| == 32 witness seq(32, _ => 0)

  // ----- what entries mean

  /** The places of the 13 characters: three groups of 5, 6 and 2. */
  function Place(k: nat): nat
    requires k < 13
    ensures Place(k) < 31
  {
    if k < 5 then 1 + 2 * k else if k < 11 then 14 + 2 * (k - 5) else 28 + 2 * (k - 11)
  }

  function Unit(e: Entry, k: nat): nat
    requires k < 13
  {
    var low: nat, high: nat := e[Place(k)], e[Place(k) + 1];
    low + 256 * high
  }

  function Units(e: Entry): (us: seq<nat>)
    ensures |us| == 13
  {
    seq(13, k requires 0 <= k < 13 => Unit(e, k))
  }

  /** The characters of a chain, whose last entry holds the beginning of the name. */
  function AllUnits(chain: seq<Entry>): seq<nat> {
    if chain == [] then [] else Units(chain[|chain| - 1]) + AllUnits(chain[..|chain| - 1])
  }

  /** What is decoded: the low bytes up to the first padding. */
  function Decoded(us: seq<nat>): seq<byte> {
    if us == [] || us[0] == PADDING then [] else [us[0] % 256] + Decoded(us[1..])
  }

  /** The `i`-th character that is stored for a name: a zero behind it, then padding. */
  function Stored(name: seq<byte>, i: nat): nat {
    if i < |name| then name[i] else if i == |name| then 0 else PADDING
  }

  /** The entry holds the characters of `name` from `base` on. */
  ghost predicate HoldsPiece(e: Entry, name: seq<byte>, base: nat) {
    forall k :: 0 <= k < 13 ==> Unit(e, k) == Stored(name, base + k)
  }

  /** Entries needed for a name. */
  function EntriesNeeded(length: nat): nat {
    length / 13 + if length % 13 > 0 then 1 else 0
  }

  /** A zero ends the name, unless the name fills its last entry. */
  function Terminated(name: seq<byte>): seq<byte> {
    name + if |name| % 13 == 0 then [] else [0]
  }

  /** Entry `count` holds the piece that comes `count`-th to last. */
  ghost predicate HoldsName(chain: seq<Entry>, name: seq<byte>) {
    |chain| == EntriesNeeded(|name|) && forall count :: 0 <= count < |chain| ==> HoldsPiece(chain[count], name, 13 * (|chain| - 1 - count))
  }

  // ----- the round trip

  /** The chain lists the stored characters in order. */
  lemma {:induction false} AllUnitsAre(chain: seq<Entry>, name: seq<byte>, base: nat)
    requires forall count :: 0 <= count < |chain| ==> HoldsPiece(chain[count], name, base + 13 * (|chain| - 1 - count))
    ensures |AllUnits(chain)| == 13 * |chain|
    ensures forall i :: 0 <= i < 13 * |chain| ==> AllUnits(chain)[i] == Stored(name, base + i)
  {
    if chain != [] {
      var n := |chain| - 1;
      forall count | 0 <= count < n ensures HoldsPiece(chain[..n][count], name, base + 13 + 13 * (n - 1 - count)) {
        assert HoldsPiece(chain[count], name, base + 13 * (n - count));
      }
      AllUnitsAre(chain[..n], name, base + 13);
      assert HoldsPiece(chain[n], name, base);
    }
  }

  lemma {:induction false} DecodeStored(us: seq<nat>, name: seq<byte>, t: seq<byte>, j: nat)
    requires forall i :: 0 <= i < |us| ==> us[i] == Stored(name, j + i)
    requires t == name + [0] || (t == name && j + |us| == |t|)
    requires j <= |t| <= j + |us|
    ensures Decoded(us) == t[j..]
    decreases |us|
  {
    if j < |t| {
      DecodeStored(us[1..], name, t, j + 1);
      assert us[0] == Stored(name, j) && t[j..] == [t[j]] + t[j + 1..];
    } else if us != [] {
      assert us[0] == Stored(name, j);
    }
  }

  /** Decoding the entries of a name gives the name back. */
  lemma DecodesToName(chain: seq<Entry>, name: seq<byte>)
    requires HoldsName(chain, name)
    ensures Decoded(AllUnits(chain)) == Terminated(name)
  {
    forall count | 0 <= count < |chain| ensures HoldsPiece(chain[count], name, 0 + 13 * (|chain| - 1 - count)) {
      assert HoldsPiece(chain[count], name, 13 * (|chain| - 1 - count));
    }
    AllUnitsAre(chain, name, 0);
    DecodeStored(AllUnits(chain), name, Terminated(name), 0);
  }

  // ----- encoding

  /** One group of `toLongFileName`: it is filled with the characters from `idx` on. */
  method FillGroup(limit: nat, name: seq<byte>, start: nat, was: bool) returns (field: array<nat>, idx: nat, terminated: bool)
    requires start <= |name| && (was ==> start == |name|)
    ensures fresh(field) && field.Length == limit
    ensures was ==> terminated && idx == start && forall i :: 0 <= i < limit ==> field[i] == PADDING
    ensures !was ==> forall i :: 0 <= i < limit ==> field[i] == Stored(name, start + i)
    ensures !was ==> idx == (if start + limit <= |name| then start + limit else |name|) && (terminated <==> |name| < start + limit)
  {
    idx, terminated := start, was;
    field := new nat[limit];
    for i := 0 to limit
      invariant was ==> terminated && idx == start && forall k :: 0 <= k < i ==> field[k] == PADDING
      invariant !was ==> forall k :: 0 <= k < i ==> field[k] == Stored(name, start + k)
      invariant !was ==> idx == (if start + i <= |name| then start + i else |name|) && (terminated <==> |name| < start + i)
    {
      if !terminated && idx < |name| {
        field[i] := name[idx];
        idx := idx + 1;
      } else if !terminated {
        field[i] := 0;
        terminated := true;
      } else {
        field[i] := PADDING;
      }
    }
  }

  predicate Are16Bit(us: seq<nat>) {
    forall i :: 0 <= i < |us| ==> us[i] <= PADDING
  }

  /** 16-bit words in memory, low byte first. */
  function Words(us: seq<nat>): (s: seq<byte>)
    requires Are16Bit(us)
    ensures |s| == 2 * |us|
  {
    seq(2 * |us|, i requires 0 <= i < 2 * |us| => if i % 2 == 0 then us[i / 2] % 256 else us[i / 2] / 256)
  }

  lemma WordsAt(us: seq<nat>, i: nat)
    requires Are16Bit(us) && i < |us|
    ensures Words(us)[2 * i] == us[i] % 256 && Words(us)[2 * i + 1] == us[i] / 256
  {
  }

  function Packed(order: byte, checkSum: byte, low: seq<nat>, mid: seq<nat>, high: seq<nat>): (e: Entry)
    requires |low| == 5 && |mid| == 6 && |high| == 2
    requires Are16Bit(low) && Are16Bit(mid) && Are16Bit(high)
  {
    [order] + Words(low) + [ATTRIBUTE_LFN, 0, checkSum] + Words(mid) + [0, 0] + Words(high)
  }

  lemma PackedUnits(order: byte, checkSum: byte, low: seq<nat>, mid: seq<nat>, high: seq<nat>)
    requires |low| == 5 && |mid| == 6 && |high| == 2
    requires Are16Bit(low) && Are16Bit(mid) && Are16Bit(high)
    ensures var e := Packed(order, checkSum, low, mid, high);
            && e[0] == order && e[11] == ATTRIBUTE_LFN && e[13] == checkSum
            && (forall k :: 0 <= k < 13 ==> Unit(e, k) == (low + mid + high)[k])
  {
    var e := Packed(order, checkSum, low, mid, high);
    assert e[1..11] == Words(low);
    assert e[14..26] == Words(mid);
    assert e[28..32] == Words(high);
    forall k | 0 <= k < 13 ensures Unit(e, k) == (low + mid + high)[k] {
      if k < 5 {
        UnitOfGroup(e, k, 1, low, k, Words(low));
      } else if k < 11 {
        UnitOfGroup(e, k, 14, mid, k - 5, Words(mid));
      } else {
        UnitOfGroup(e, k, 28, high, k - 11, Words(high));
      }
    }
  }

  lemma UnitOfGroup(e: Entry, k: nat, at: nat, group: seq<nat>, j: nat, window: seq<byte>)
    requires k < 13 && j < |group| && at + |window| <= 32 && Place(k) == at + 2 * j
    requires Are16Bit(group) && window == Words(group) && e[at..at + |window|] == window
    ensures Unit(e, k) == group[j]
  {
    SameAt(e, at, window, 2 * j);
    SameAt(e, at, window, 2 * j + 1);
    WordsAt(group, j);
  }

  lemma SameAt(e: seq<byte>, at: nat, window: seq<byte>, i: nat)
    requires i < |window| && at + |window| <= |e| && e[at..at + |window|] == window
    ensures e[at + i] == window[i]
  {
  }

  /** `toLongFileName`. */
  method ToLongFileName(name: seq<byte>, orderNumber: byte, checkSum: byte) returns (longEntry: Entry)
    ensures HoldsPiece(longEntry, name, 0)
    ensures longEntry[0] == orderNumber && longEntry[11] == ATTRIBUTE_LFN && longEntry[13] == checkSum
  {
    var low, idx, terminated := FillGroup(5, name, 0, false);
    var mid, high;
    mid, idx, terminated := FillGroup(6, name, idx, terminated);
    high, idx, terminated := FillGroup(2, name, idx, terminated);
    ghost var units := low[..] + mid[..] + high[..];
    forall k | 0 <= k < 13 ensures units[k] == Stored(name, k) { }
    longEntry := Packed(orderNumber, checkSum, low[..], mid[..], high[..]);
    PackedUnits(orderNumber, checkSum, low[..], mid[..], high[..]);
  }

  lemma PieceOfName(e: Entry, name: seq<byte>, base: nat)
    requires base <= |name| && HoldsPiece(e, name[base..], 0)
    ensures HoldsPiece(e, name, base)
  {
    forall k | 0 <= k < 13 ensures Unit(e, k) == Stored(name, base + k) {
      assert Unit(e, k) == Stored(name[base..], 0 + k);
    }
  }

  /** The number of entries as it is computed, in 8 bits and for a length in 16 bits. */
  function EntriesMade(length: nat): (n: nat)
    ensures n <= 255 && n * 13 < length % 0x1_0000 + 13
    ensures length <= 255 * 13 ==> n == EntriesNeeded(length)
  {
    var l := length % 0x1_0000;
    (l / 13 % 256 + if l % 13 > 0 then 1 else 0) % 256
  }

  /** `order |= LFN_ENTRY_LAST_FLAG`. */
  function WithFlag(order: byte): byte {
    if order / LAST_FLAG % 2 == 1 then order else order + LAST_FLAG
  }

  /** `createLongFileNameEntryAtAddress`: the entries in the order of their addresses, the end of the
      name first. Names of up to 3315 characters are held completely. */
  method CreateLongFileNameEntries(fileName: seq<byte>, checkSum: byte) returns (entries: seq<Entry>)
    ensures |entries| == EntriesMade(|fileName|)
    ensures forall c :: 0 <= c < |entries| ==> HoldsPiece(entries[c], fileName, 13 * (|entries| - 1 - c))
    ensures forall c :: 0 <= c < |entries| ==>
              entries[c][0] == (if c == 0 then WithFlag(|entries|) else |entries| - c) && entries[c][13] == checkSum
    ensures |fileName| <= 255 * 13 ==> HoldsName(entries, fileName)
  {
    var entriesNeeded := EntriesMade(|fileName|);
    entries := [];
    var i := entriesNeeded - 1;
    while i >= 0
      invariant -1 <= i < entriesNeeded && |entries| == entriesNeeded - 1 - i
      invariant forall c :: 0 <= c < |entries| ==> HoldsPiece(entries[c], fileName, 13 * (entriesNeeded - 1 - c))
      invariant forall c :: 0 <= c < |entries| ==>
                  entries[c][0] == (if c == 0 then WithFlag(entriesNeeded) else entriesNeeded - c) && entries[c][13] == checkSum
    {
      var longEntry := ToLongFileName(fileName[i * 13..], i + 1, checkSum);
      if i == entriesNeeded - 1 {
        longEntry := Flagged(longEntry);
      }
      PieceOfName(longEntry, fileName, i * 13);
      entries := entries + [longEntry];
      i := i - 1;
    }
  }

  method Flagged(e: Entry) returns (r: Entry)
    ensures r[0] == WithFlag(e[0]) && r[13] == e[13] && forall k :: 0 <= k < 13 ==> Unit(r, k) == Unit(e, k)
  {
    r := e[0 := WithFlag(e[0])];
  }

  // ----- decoding

  /** `longFileNameEntriesToName`: what it writes to `oName`. */
  method LongFileNameEntriesToName(lfnChain: seq<Entry>) returns (oName: seq<byte>)
    ensures oName == Decoded(AllUnits(lfnChain))
  {
    oName := [];
    ghost var all := Decoded(AllUnits(lfnChain));
    var i := |lfnChain| - 1;
    assert lfnChain[..i + 1] == lfnChain;
    while i >= 0
      invariant -1 <= i < |lfnChain|
      invariant all == oName + Decoded(AllUnits(lfnChain[..i + 1]))
    {
      ghost var us, rest := Units(lfnChain[i]), AllUnits(lfnChain[..i]);
      LastUnits(lfnChain, i);
      var j, base := 0, 0;
      while j < 3
        invariant 0 <= j <= 3 && base == (if j == 0 then 0 else if j == 1 then 5 else if j == 2 then 11 else 13)
        invariant all == oName + DecodedFrom(us, base, rest)
      {
        var length := if j == 0 then 5 else if j == 1 then 6 else 2;
        for l := 0 to length
          invariant all == oName + DecodedFrom(us, base + l, rest)
        {
          var unit := Unit(lfnChain[i], base + l);
          DecodeNext(us, base + l, rest, oName);
          if unit == PADDING { return; }
          oName := oName + [unit % 256];
        }
        base := base + length;
        j := j + 1;
      }
      i := i - 1;
    }
  }

  /** What is decoded of the characters from `k` on and those of `rest`. */
  ghost function DecodedFrom(us: seq<nat>, k: nat, rest: seq<nat>): seq<byte>
    requires k <= |us|
    decreases |us| - k
  {
    if k == |us| then Decoded(rest) else if us[k] == PADDING then [] else [us[k] % 256] + DecodedFrom(us, k + 1, rest)
  }

  lemma {:induction false} DecodedFromIs(us: seq<nat>, k: nat, rest: seq<nat>)
    requires k <= |us|
    ensures DecodedFrom(us, k, rest) == Decoded(us[k..] + rest)
    decreases |us| - k
  {
    if k < |us| {
      assert (us[k..] + rest)[0] == us[k] && (us[k..] + rest)[1..] == us[k + 1..] + rest;
      DecodedFromIs(us, k + 1, rest);
    } else {
      assert us[k..] + rest == rest;
    }
  }

  lemma LastUnits(chain: seq<Entry>, i: nat)
    requires i < |chain|
    ensures Decoded(AllUnits(chain[..i + 1])) == DecodedFrom(Units(chain[i]), 0, AllUnits(chain[..i]))
  {
    assert chain[..i + 1][..i] == chain[..i];
    assert Units(chain[i])[0..] == Units(chain[i]);
    DecodedFromIs(Units(chain[i]), 0, AllUnits(chain[..i]));
  }

  lemma DecodeNext(us: seq<nat>, k: nat, rest: seq<nat>, before: seq<byte>)
    requires k < |us|
    ensures us[k] == PADDING ==> before + DecodedFrom(us, k, rest) == before
    ensures us[k] != PADDING ==> before + DecodedFrom(us, k, rest) == before + [us[k] % 256] + DecodedFrom(us, k + 1, rest)
  {
  }

  // ----- checksums

  function RotateRight(sum: byte): byte {
    sum / 2 + 128 * (sum % 2)
  }

  function AddByte(sum: byte, c: byte): byte {
    (sum + c) % 256
  }

  /** One byte of `getCheckSumFromSEntry`. */
  function Rotated(sum: byte, c: byte): byte {
    AddByte(RotateRight(sum), c)
  }

  /** The checksum of the 11 characters of a short name. */
  function CheckSum(name: seq<byte>): byte {
    if name == [] then 0 else Rotated(CheckSum(name[..|name| - 1]), name[|name| - 1])
  }

  method GetCheckSum(upperName: seq<byte>) returns (sum: byte)
    requires |upperName| == 11
    ensures sum == CheckSum(upperName)
  {
    sum := 0;
    for i := 0 to 11
      invariant sum == CheckSum(upperName[..i])
    {
      assert upperName[..i + 1][..i] == upperName[..i];
      sum := Rotated(sum, upperName[i]);
    }
    assert upperName[..11] == upperName;
  }

  lemma RotateApart(s: byte, t: byte)
    requires s != t
    ensures RotateRight(s) != RotateRight(t)
  {
    assert s == 2 * (s / 2) + s % 2 && t == 2 * (t / 2) + t % 2;
  }

  lemma AddApart(s: byte, t: byte, c: byte, d: byte)
    requires (s != t && c == d) || (s == t && c != d)
    ensures AddByte(s, c) != AddByte(t, d)
  {
    assert AddByte(s, c) == if s + c < 256 then s + c else s + c - 256;
    assert AddByte(t, d) == if t + d < 256 then t + d else t + d - 256;
  }

  /** A name that differs in one character has another checksum. */
  lemma {:induction false} CheckSumSeesOneByte(m: seq<byte>, n: seq<byte>, at: nat)
    requires |m| == |n| && at < |m| && m[at] != n[at]
    requires forall i :: 0 <= i < |m| && i != at ==> m[i] == n[i]
    ensures CheckSum(m) != CheckSum(n)
  {
    var k := |m| - 1;
    var s, t := CheckSum(m[..k]), CheckSum(n[..k]);
    if at == k {
      assert m[..k] == n[..k];
    } else {
      CheckSumSeesOneByte(m[..k], n[..k], at);
      RotateApart(s, t);
    }
    AddApart(RotateRight(s), RotateRight(t), m[k], n[k]);
  }
}
