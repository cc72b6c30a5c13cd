/** `memory/kheap/kheap_page.c`: the first-fit allocator over one flag byte per page. */
module PageHeaps {
  import opened Bytes

  type Flag = bv8

  const FLAG_LOCKED: Flag := 0x01
  const FLAG_START: Flag := 0x40
  const FLAG_NEXT: Flag := 0x80

  const BLOCK_SIZE: nat := 4096
  const HEAP_ADDRESS: nat := 0x500000
  const WORD_64: nat := 0x1_0000_0000_0000_0000

  /** Live blocks: first page and number of pages. */
  type Blocks = map<nat, nat>

  // ----- the table as an encoding of blocks

  predicate Holds(b: Blocks, s: nat, page: nat) {
    s in b && s <= page < s + b[s]
  }

  ghost predicate Unused(b: Blocks, page: nat) {
    forall s :: s in b ==> !Holds(b, s, page)
  }

  function Mark(first: bool, last: bool): Flag {
    if first then if last then 0x41 else 0xC1 else if last then 0x01 else 0x81
  }

  ghost predicate Disjoint(b: Blocks) {
    forall s, r :: s in b && r in b && s < r ==> s + b[s] <= r
  }

  ghost predicate BlockMarked(t: seq<Flag>, s: nat, len: nat) {
    len > 0 && s + len <= |t| && forall i :: s <= i < s + len ==> t[i] == Mark(i == s, i + 1 == s + len)
  }

  /** Free pages carry 0; a block is START, then all but the last page carry NEXT, all are LOCKED. */
  ghost predicate Represents(t: seq<Flag>, b: Blocks) {
    && Disjoint(b)
    && (forall s :: s in b ==> BlockMarked(t, s, b[s]))
    && (forall i :: 0 <= i < |t| && Unused(b, i) ==> t[i] == 0)
  }

  ghost predicate PageFree(t: seq<Flag>, i: int) {
    0 <= i < |t| && t[i] == 0
  }

  /** `len` free pages from `s` on. */
  ghost predicate Fits(t: seq<Flag>, s: int, len: nat) {
    0 <= s && s + len <= |t| && forall i :: s <= i < s + len ==> PageFree(t, i)
  }

  /** The leftmost such window. */
  ghost predicate FirstFit(t: seq<Flag>, s: int, len: nat) {
    Fits(t, s, len) && forall r :: r < s ==> !Fits(t, r, len)
  }

  /** What the flag bits of a page tell. */
  lemma FlagsOfPage(t: seq<Flag>, b: Blocks, i: nat)
    requires Represents(t, b) && i < |t|
    ensures t[i] & FLAG_LOCKED == 0 <==> Unused(b, i)
    ensures t[i] == 0 <==> Unused(b, i)
    ensures t[i] & FLAG_START != 0 <==> i in b
  {
    if !Unused(b, i) {
      var s :| s in b && Holds(b, s, i);
      assert BlockMarked(t, s, b[s]);
    }
    if i in b { assert Holds(b, i, i); }
  }

  /** Within a block, NEXT ends with it. */
  lemma NextOfPage(t: seq<Flag>, s: nat, len: nat, i: nat)
    requires BlockMarked(t, s, len) && s <= i < s + len
    ensures t[i] & FLAG_NEXT == 0 <==> i + 1 == s + len
  {
  }

  /** A table encodes one set of blocks only. */
  lemma OneReading(t: seq<Flag>, b: Blocks, c: Blocks)
    requires Represents(t, b) && Represents(t, c)
    ensures b == c
  {
    forall s | s in b || s in c ensures s in b && s in c && b[s] == c[s] {
      assert s < |t| by {
        if s in b { assert BlockMarked(t, s, b[s]); } else { assert BlockMarked(t, s, c[s]); }
      }
      FlagsOfPage(t, b, s);
      FlagsOfPage(t, c, s);
      assert BlockMarked(t, s, b[s]) && BlockMarked(t, s, c[s]);
      var last := s + (if b[s] < c[s] then b[s] else c[s]) - 1;
      NextOfPage(t, s, b[s], last);
      NextOfPage(t, s, c[s], last);
    }
  }

  /** Blocks are encoded by one table only, so releasing a block restores every byte. */
  lemma OneTable(t: seq<Flag>, u: seq<Flag>, b: Blocks)
    requires Represents(t, b) && Represents(u, b) && |t| == |u|
    ensures t == u
  {
    forall i: nat | i < |t| ensures t[i] == u[i] {
      if !Unused(b, i) {
        var s :| s in b && Holds(b, s, i);
        assert BlockMarked(t, s, b[s]) && BlockMarked(u, s, b[s]);
      }
    }
  }

  lemma FreeUndoesAlloc(t: seq<Flag>, u: seq<Flag>, b: Blocks, s: nat, len: nat)
    requires Represents(t, b) && |u| == |t| && Fits(t, s, len) && len > 0
    requires Represents(u, b[s := len] - {s})
    ensures u == t
  {
    assert PageFree(t, s);
    FlagsOfPage(t, b, s);
    assert s in b ==> Holds(b, s, s);
    assert b[s := len] - {s} == b;
    OneTable(t, u, b);
  }

  /** Marking a window of free pages adds a block. */
  lemma AllocKeeps(t: seq<Flag>, u: seq<Flag>, b: Blocks, s: nat, len: nat)
    requires Represents(t, b) && Fits(t, s, len) && len > 0 && |u| == |t|
    requires BlockMarked(u, s, len) && forall i :: 0 <= i < |t| && !(s <= i < s + len) ==> u[i] == t[i]
    ensures Represents(u, b[s := len]) && s !in b
  {
    forall r | r in b ensures r + b[r] <= s || s + len <= r {
      assert BlockMarked(t, r, b[r]);
      if r < s + len && s < r + b[r] {
        var i := if r < s then s else r;
        assert PageFree(t, i) && Holds(b, r, i);
        FlagsOfPage(t, b, i);
      }
    }
    var c := b[s := len];
    forall r | r in c ensures BlockMarked(u, r, c[r]) {
      if r != s { assert BlockMarked(t, r, b[r]); }
    }
    forall i: nat | i < |t| && Unused(c, i) ensures u[i] == 0 {
      assert !Holds(c, s, i);
      forall r | r in b ensures !Holds(b, r, i) {
        assert !Holds(c, r, i);
      }
      assert Unused(b, i);
    }
  }

  /** Clearing the pages of a block removes it. */
  lemma FreeKeeps(t: seq<Flag>, u: seq<Flag>, b: Blocks, s: nat)
    requires Represents(t, b) && s in b && |u| == |t|
    requires forall i :: 0 <= i < |t| ==> u[i] == if s <= i < s + b[s] then 0 else t[i]
    ensures Represents(u, b - {s})
  {
    var c := b - {s};
    forall r | r in c ensures BlockMarked(u, r, c[r]) {
      assert BlockMarked(t, r, b[r]);
    }
    forall i: nat | i < |t| && Unused(c, i) ensures u[i] == 0 {
      if !(s <= i < s + b[s]) {
        forall r | r in b ensures !Holds(b, r, i) {
          assert r in c ==> !Holds(c, r, i);
        }
        assert Unused(b, i);
      }
    }
  }

  lemma SomethingTaken(t: seq<Flag>, b: Blocks)
    requires Represents(t, b)
    ensures b == map[] || exists i: nat :: i < |t| && !Unused(b, i)
  {
    if s: nat :| s in b {
      assert BlockMarked(t, s, b[s]) && Holds(b, s, s);
      assert !Unused(b, s);
    }
  }

  // ----- conservation

  predicate InWindow(s: nat, len: nat, i: nat) {
    s <= i < s + len
  }

  ghost function Window(s: nat, len: nat): set<nat> {
    set i: nat | i < s + len && InWindow(s, len, i)
  }

  lemma {:induction false} WindowCount(s: nat, len: nat)
    ensures |Window(s, len)| == len
  {
    if len > 0 {
      WindowCount(s, len - 1);
      assert Window(s, len) == Window(s, len - 1) + {s + len - 1};
    }
  }

  ghost function BlockPages(b: Blocks): nat {
    if b == map[] then 0 else var s :| s in b; b[s] + BlockPages(b - {s})
  }

  ghost function TakenPages(n: nat, b: Blocks): set<nat> {
    set i: nat | i < n && !Unused(b, i)
  }

  ghost function FreePages(t: seq<Flag>): set<nat> {
    set i: nat | i < |t| && PageFree(t, i)
  }

  lemma TakenWithout(b: Blocks, s: nat, i: nat)
    requires Disjoint(b) && s in b
    ensures !Unused(b, i) <==> !Unused(b - {s}, i) || InWindow(s, b[s], i)
    ensures !(!Unused(b - {s}, i) && InWindow(s, b[s], i))
  {
    var c := b - {s};
    forall r | r in c ensures Holds(c, r, i) <==> Holds(b, r, i) { }
    assert InWindow(s, b[s], i) <==> Holds(b, s, i);
  }

  lemma {:induction false} TakenCount(n: nat, b: Blocks)
    requires Disjoint(b) && forall s :: s in b ==> s + b[s] <= n
    ensures |TakenPages(n, b)| == BlockPages(b)
  {
    if b != map[] {
      var s: nat :| s in b && BlockPages(b) == b[s] + BlockPages(b - {s});
      TakenCount(n, b - {s});
      TakenSplit(n, b, s);
    } else {
      assert TakenPages(n, b) == {};
    }
  }

  lemma TakenSplit(n: nat, b: Blocks, s: nat)
    requires Disjoint(b) && s in b && s + b[s] <= n
    ensures |TakenPages(n, b)| == |TakenPages(n, b - {s})| + b[s]
  {
    var x, y, w := TakenPages(n, b), TakenPages(n, b - {s}), Window(s, b[s]);
    forall i: nat ensures i in x <==> i in y || i in w
                  ensures !(i in y && i in w)
    {
      TakenWithout(b, s, i);
    }
    WindowCount(s, b[s]);
    DisjointCount(x, y, w);
  }

  lemma DisjointCount(x: set<nat>, y: set<nat>, z: set<nat>)
    requires forall i: nat :: (i in x <==> i in y || i in z) && !(i in y && i in z)
    ensures |x| == |y| + |z|
  {
    assert x == y + z && y * z == {};
  }

  /** Free pages and the pages of the live blocks make up the heap. */
  lemma PagesConserved(t: seq<Flag>, b: Blocks)
    requires Represents(t, b)
    ensures |FreePages(t)| + BlockPages(b) == |t|
  {
    forall s | s in b ensures s + b[s] <= |t| { assert BlockMarked(t, s, b[s]); }
    TakenCount(|t|, b);
    WindowCount(0, |t|);
    forall i: nat ensures i in Window(0, |t|) <==> i in FreePages(t) || i in TakenPages(|t|, b)
                  ensures !(i in FreePages(t) && i in TakenPages(|t|, b))
    {
      if i < |t| { FlagsOfPage(t, b, i); }
      assert InWindow(0, |t|, i) <==> i < |t|;
    }
    DisjointCount(Window(0, |t|), FreePages(t), TakenPages(|t|, b));
  }

  // ----- the heap

  /** `sizeUpToPage`, in 64-bit arithmetic: the last 4095 sizes wrap to 0. */
  function SizeUpToPage(size: nat): nat
    requires size < WORD_64
  {
    if size % BLOCK_SIZE == 0 then size else (size + (BLOCK_SIZE - size % BLOCK_SIZE)) % WORD_64
  }

  /** Requests get the fewest pages that hold them, but for those that wrap: exactly these and the
      empty request get no page. */
  lemma PagesHoldSize(size: nat)
    requires size < WORD_64
    ensures var n := SizeUpToPage(size) / BLOCK_SIZE;
            && (n == 0 <==> size == 0 || size > WORD_64 - BLOCK_SIZE)
            && (n > 0 ==> (n - 1) * BLOCK_SIZE < size <= n * BLOCK_SIZE)
  {
  }

  /** `page` is the one behind the first page in use. */
  ghost predicate BehindFirstTaken(b: Blocks, page: nat) {
    page > 0 && !Unused(b, page - 1) && forall i: nat :: i < page - 1 ==> Unused(b, i)
  }

  class PageHeap {
    const table: array<Flag>
    ghost var blocks: Blocks

    ghost predicate Valid()
      reads this, table
    {
      Represents(table[..], blocks)
    }

    /** `kheapInitTable`. */
    constructor (pages: nat)
      ensures Valid() && fresh(table) && table.Length == pages && blocks == map[]
    {
      table := new Flag[pages](_ => 0);
      blocks := map[];
    }

    /** `markEntryTaken`. */
    method MarkEntryTaken(startIndex: nat, size: nat)
      requires Fits(table[..], startIndex, size)
      modifies table
      ensures size > 0 ==> BlockMarked(table[..], startIndex, size)
      ensures forall i :: 0 <= i < table.Length && !(startIndex <= i < startIndex + size) ==> table[i] == old(table[i])
    {
      for i := 0 to size
        invariant forall k :: startIndex <= k < startIndex + i ==> table[k] == Mark(k == startIndex, k + 1 == startIndex + size)
        invariant forall k :: 0 <= k < table.Length && !(startIndex <= k < startIndex + i) ==> table[k] == old(table[k])
      {
        assert PageFree(old(table[..]), startIndex + i);
        if i == 0 {
          table[i + startIndex] := table[i + startIndex] | FLAG_START;
        }
        if i + 1 != size {
          table[i + startIndex] := table[i + startIndex] | FLAG_NEXT;
        }
        table[i + startIndex] := table[i + startIndex] | FLAG_LOCKED;
      }
    }

    /** `findFreePages`: the leftmost window of free pages becomes a block. Asked for no pages, it
        points behind the first page that is taken. */
    method FindFreePages(pagesCount: nat) returns (r: int, page: nat)
      requires Valid()
      modifies this, table
      ensures Valid()
      ensures r == SUCCESS || r == -ENMEM
      ensures r != SUCCESS ==> blocks == old(blocks) && table[..] == old(table[..])
      ensures r != SUCCESS && pagesCount > 0 ==> forall s :: !Fits(table[..], s, pagesCount)
      ensures r == SUCCESS && pagesCount > 0 ==>
                && FirstFit(old(table[..]), page, pagesCount)
                && page !in old(blocks) && blocks == old(blocks)[page := pagesCount]
      ensures pagesCount == 0 ==> blocks == old(blocks) && table[..] == old(table[..])
      ensures pagesCount == 0 ==> (r == SUCCESS <==> blocks != map[])
      ensures pagesCount == 0 && r == SUCCESS ==>
                page <= table.Length && BehindFirstTaken(blocks, page)
    {
      var foundCount := 0;
      for i := 0 to table.Length
        invariant 0 <= foundCount <= i && table[..] == old(table[..]) && blocks == old(blocks)
        invariant pagesCount > 0 ==> foundCount < pagesCount
        invariant Fits(table[..], i - foundCount, foundCount)
        invariant foundCount < i ==> !PageFree(table[..], i - foundCount - 1)
        invariant forall s :: s + pagesCount <= i && pagesCount > 0 ==> !Fits(table[..], s, pagesCount)
        invariant pagesCount == 0 ==> forall k: nat :: k < i ==> Unused(blocks, k)
      {
        FlagsOfPage(table[..], blocks, i);
        if table[i] & FLAG_LOCKED == 0 {
          foundCount := foundCount + 1;
        } else {
          foundCount := 0;
        }
        if foundCount == pagesCount {
          Take(i + 1 - foundCount, pagesCount);
          return SUCCESS, i + 1 - foundCount;
        }
      }
      SomethingTaken(table[..], blocks);
      return -ENMEM, 0;
    }

    /** The window that was found becomes a block. */
    method Take(page: nat, pagesCount: nat)
      requires Valid() && Fits(table[..], page, pagesCount)
      modifies this, table
      ensures Valid()
      ensures if pagesCount == 0 then blocks == old(blocks) && table[..] == old(table[..])
              else page !in old(blocks) && blocks == old(blocks)[page := pagesCount]
    {
      ghost var t := table[..];
      MarkEntryTaken(page, pagesCount);
      if pagesCount > 0 {
        AllocKeeps(t, table[..], blocks, page, pagesCount);
        blocks := blocks[page := pagesCount];
      } else {
        assert table[..] == t;
      }
    }

    /** `kzallocPage`. A request that comes to no pages gets the address behind the first page in use,
        or null in an empty heap. */
    method KzallocPage(size: nat) returns (mem: nat, ghost page: nat)
      requires Valid() && size < WORD_64
      modifies this, table
      ensures Valid()
      ensures var count := SizeUpToPage(size) / BLOCK_SIZE;
              if count > 0 && mem != 0 then
                && FirstFit(old(table[..]), page, count) && mem == HEAP_ADDRESS + page * BLOCK_SIZE
                && page !in old(blocks) && blocks == old(blocks)[page := count]
              else
                && blocks == old(blocks) && table[..] == old(table[..])
                && (if count > 0 then forall s :: !Fits(table[..], s, count)
                    else if blocks == map[] then mem == 0
                    else mem == HEAP_ADDRESS + page * BLOCK_SIZE && BehindFirstTaken(blocks, page))
    {
      var ret, first := FindFreePages(SizeUpToPage(size) / BLOCK_SIZE);
      page := first;
      if ret < 0 { return 0, page; }
      assert first * BLOCK_SIZE >= 0;
      return HEAP_ADDRESS + first * BLOCK_SIZE, page;
    }

    /** `freeAllocatedMemory`: clears pages up to the first one without NEXT. */
    method FreeAllocatedMemory(index: nat)
      requires Valid() && index in blocks
      modifies this, table
      ensures Valid() && blocks == old(blocks) - {index}
    {
      assert BlockMarked(table[..], index, blocks[index]);
      ghost var t, len := table[..], blocks[index];
      var end, counter := false, 0;
      while !end
        invariant 0 <= counter <= len && (end <==> counter == len) && blocks == old(blocks)
        invariant forall i :: 0 <= i < table.Length ==> table[i] == if index <= i < index + counter then 0 else t[i]
        decreases len - counter
      {
        NextOfPage(t, index, len, index + counter);
        if table[index + counter] & FLAG_NEXT == 0 {
          end := true;
        }
        table[index + counter] := table[index + counter] & 0;
        counter := counter + 1;
      }
      FreeKeeps(t, table[..], blocks, index);
      blocks := blocks - {index};
    }

    /** `kzfreePage`: it refuses unaligned addresses, and of the page addresses in the heap it accepts
        exactly the starts of live blocks. */
    method KzfreePage(pointer: nat) returns (r: int)
      requires Valid()
      requires pointer % BLOCK_SIZE == 0 ==> HEAP_ADDRESS <= pointer < HEAP_ADDRESS + table.Length * BLOCK_SIZE
      modifies this, table
      ensures Valid()
      ensures r == SUCCESS || r == -EIARG
      ensures r == SUCCESS <==> exists s: nat :: s in old(blocks) && pointer == HEAP_ADDRESS + s * BLOCK_SIZE
      ensures r == SUCCESS ==> blocks == old(blocks) - {(pointer - HEAP_ADDRESS) / BLOCK_SIZE}
      ensures r != SUCCESS ==> blocks == old(blocks) && table[..] == old(table[..])
    {
      if pointer % BLOCK_SIZE != 0 { return -EIARG; }
      var index := (pointer - HEAP_ADDRESS) / BLOCK_SIZE;
      FlagsOfPage(table[..], blocks, index);
      if table[index] & FLAG_START == 0 { return -EIARG; }
      FreeAllocatedMemory(index);
      return SUCCESS;
    }
  }
}
