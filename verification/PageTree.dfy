/** The table pages of `memory/paging/paging.c` as a tree, and the flat map it stands for. */
module PageTree {
  const SIZE_4KB: nat := 0x1000
  const SIZE_2GB: nat := 0x8000_0000
  const SIZE_48: nat := 0x1_0000_0000_0000
  const SIZE_64: nat := 0x1_0000_0000_0000_0000
  const PAGES: nat := 0x10_0000_0000
  const FLAGS_P_RW: nat := 3

  // ----- addresses and entries

  /** `downToPage`, and the mask that takes the flags off an entry. */
  function DownToPage(a: nat): nat {
    a - a % SIZE_4KB
  }

  /** `upToPage` in 64-bit arithmetic. */
  function UpToPage(a: nat): nat {
    if a % SIZE_4KB == 0 then a else (a + SIZE_4KB - a % SIZE_4KB) % SIZE_64
  }

  /** What `writePointerTableEntry` stores for an address. */
  function Pack(a: nat): nat {
    DownToPage(a % SIZE_48) + FLAGS_P_RW
  }

  lemma PackedAddress(a: nat)
    ensures DownToPage(Pack(a)) == DownToPage(a % SIZE_48) && Pack(a) < SIZE_48
    ensures a < SIZE_48 && a % SIZE_4KB == 0 ==> DownToPage(Pack(a)) == a
  {
  }

  /** The number of the page of a virtual address: bits 12 to 47. */
  function PageNo(virt: nat): (p: nat)
    ensures p < PAGES
  {
    virt / SIZE_4KB % PAGES
  }

  function Pml4Index(virt: nat): nat { virt / 0x80_0000_0000 % 512 }
  function PdpIndex(virt: nat): nat { virt / 0x4000_0000 % 512 }
  function PdIndex(virt: nat): nat { virt / 0x20_0000 % 512 }
  function PtIndex(virt: nat): nat { virt / 0x1000 % 512 }

  lemma Digits(q: nat, r: nat)
    requires r < 512
    ensures (q * 512 + r) / 512 == q && (q * 512 + r) % 512 == r
  {
  }

  lemma Shifts(virt: nat)
    ensures virt / 0x20_0000 == virt / 0x1000 / 512
    ensures virt / 0x4000_0000 == virt / 0x20_0000 / 512
    ensures virt / 0x80_0000_0000 == virt / 0x4000_0000 / 512
  {
  }

  lemma PageDigits(w: nat, q: nat, a: nat, b: nat, c: nat, d: nat)
    requires w == (((q * 512 + a) * 512 + b) * 512 + c) * 512 + d && a < 512 && b < 512 && c < 512 && d < 512
    ensures w % PAGES == ((a * 512 + b) * 512 + c) * 512 + d
  {
    var p := ((a * 512 + b) * 512 + c) * 512 + d;
    assert w == q * PAGES + p && p < PAGES;
  }

  /** The four indices are the digits of the page number. */
  lemma Indices(virt: nat)
    ensures var p := PageNo(virt);
            && PtIndex(virt) == p % 512 && PdIndex(virt) == p / 512 % 512
            && PdpIndex(virt) == p / 512 / 512 % 512 && Pml4Index(virt) == p / 512 / 512 / 512 < 512
  {
    var a, b, c, d := Pml4Index(virt), PdpIndex(virt), PdIndex(virt), PtIndex(virt);
    Shifts(virt);
    PageDigits(virt / 0x1000, virt / 0x80_0000_0000 / 512, a, b, c, d);
    Digits((a * 512 + b) * 512 + c, d);
    Digits(a * 512 + b, c);
    Digits(a, b);
  }

  /** So two addresses with the same indices lie in the same page. */
  lemma IndicesIdentifyPage(v: nat, w: nat)
    ensures PageNo(v) == PageNo(w) <==>
            Pml4Index(v) == Pml4Index(w) && PdpIndex(v) == PdpIndex(w) && PdIndex(v) == PdIndex(w) && PtIndex(v) == PtIndex(w)
  {
    Indices(v);
    Indices(w);
  }

  function NextPage(p: nat): (r: nat)
    requires p < PAGES
    ensures r < PAGES
  {
    if p + 1 == PAGES then 0 else p + 1
  }

  /** The `i`-th page from `virt` on; page numbers wrap. */
  function NthPage(virt: nat, i: nat): (p: nat)
    ensures p < PAGES
  {
    if i == 0 then PageNo(virt) else NextPage(NthPage(virt, i - 1))
  }

  lemma NextPageNo(virt: nat)
    ensures PageNo(virt + SIZE_4KB) == NextPage(PageNo(virt))
  {
    assert (virt + SIZE_4KB) / SIZE_4KB == virt / SIZE_4KB + 1;
  }

  lemma {:induction false} NthPageNo(virt: nat, i: nat)
    ensures NthPage(virt, i) == PageNo(virt + i * SIZE_4KB)
  {
    if i > 0 {
      NthPageNo(virt, i - 1);
      NextPageNo(virt + (i - 1) * SIZE_4KB);
      assert virt + (i - 1) * SIZE_4KB + SIZE_4KB == virt + i * SIZE_4KB;
    }
  }

  /** Page numbers count up and wrap once within `PAGES` pages. */
  lemma {:induction false} NthPages(virt: nat, i: nat)
    requires i <= PAGES
    ensures NthPage(virt, i) == if PageNo(virt) + i < PAGES then PageNo(virt) + i else PageNo(virt) + i - PAGES
  {
    if i > 0 { NthPages(virt, i - 1); }
  }

  lemma {:induction false} NthPagesApart(virt: nat, i: nat, j: nat)
    requires i < j < i + PAGES
    ensures NthPage(virt, i) != NthPage(virt, j)
  {
    if i > 0 {
      NthPagesApart(virt, i - 1, j - 1);
    } else {
      NthPages(virt, j);
    }
  }

  // ----- the tree

  /** A table, by the digits that lead to it: the PML4 table has depth 0, page tables have depth 3. */
  datatype Dir = Dir(depth: nat, prefix: nat)

  type Page = seq<nat>
  type Memory = map<nat, Page>
  type Tables = map<Dir, nat>

  const ROOT := Dir(0, 0)

  /** A zeroed page. */
  function EmptyTable(): (t: Page)
    ensures |t| == 512 && forall i :: 0 <= i < 512 ==> t[i] == 0
  {
    seq(512, _ => 0)
  }

  function Child(n: Dir, i: nat): Dir {
    Dir(n.depth + 1, n.prefix * 512 + i)
  }

  predicate GoodPage(a: nat) {
    0 < a < SIZE_48 && a % SIZE_4KB == 0
  }

  ghost predicate TableOk(mem: Memory, tables: Tables, n: Dir) {
    && n in tables && GoodPage(tables[n]) && tables[n] in mem && |mem[tables[n]]| == 512
    && n.depth <= 3 && (n.depth == 0 ==> n == ROOT)
    && (n.depth > 0 ==> Dir(n.depth - 1, n.prefix / 512) in tables)
  }

  /** A slot of an inner table points to the table one digit further, or is empty if there is none. */
  ghost predicate SlotOk(mem: Memory, tables: Tables, n: Dir, i: nat) {
    TableOk(mem, tables, n) && i < 512 &&
    if Child(n, i) in tables then DownToPage(mem[tables[n]][i]) == tables[Child(n, i)] else mem[tables[n]][i] == 0
  }

  /** Tables of different digits are different pages. */
  ghost predicate Apart(tables: Tables) {
    forall n, m :: n in tables && m in tables && n != m ==> tables[n] != tables[m]
  }

  ghost predicate Sound(mem: Memory, tables: Tables) {
    && ROOT in tables && Apart(tables)
    && (forall n {:trigger TableOk(mem, tables, n)} :: n in tables ==> TableOk(mem, tables, n))
    && (forall n, i {:trigger SlotOk(mem, tables, n, i)} :: n in tables && n.depth < 3 && 0 <= i < 512 ==> SlotOk(mem, tables, n, i))
  }

  /** The entry in slot `i` of table `n`; 0 where no such table has been made. */
  function Entry(mem: Memory, tables: Tables, n: Dir, i: nat): nat {
    if n in tables && tables[n] in mem && i < |mem[tables[n]]| then mem[tables[n]][i] else 0
  }

  /** The entry for page `p`. */
  function RawEntry(mem: Memory, tables: Tables, p: nat): nat {
    Entry(mem, tables, Dir(3, p / 512), p % 512)
  }

  /** The flat map from page numbers to entries. */
  ghost function Flat(mem: Memory, tables: Tables): imap<nat, nat> {
    imap p: nat | p < PAGES :: RawEntry(mem, tables, p)
  }

  /** The flat map of an empty PML4 table. */
  ghost function Unmapped(): imap<nat, nat> {
    Flat(map[], map[])
  }

  /** `c` belongs into slot `i` of `n`. */
  predicate IsParent(n: Dir, i: nat, c: Dir) {
    n.depth + 1 == c.depth && n.prefix == c.prefix / 512 && i == c.prefix % 512
  }

  /** Every table but the PML4 table hangs from exactly one slot. */
  lemma OneSlot(mem: Memory, tables: Tables, c: Dir)
    requires Sound(mem, tables) && c in tables && c != ROOT
    ensures forall n, i: nat :: n in tables && n.depth < 3 && i < 512 ==>
              TableOk(mem, tables, n)
              && (DownToPage(mem[tables[n]][i]) == tables[c] <==> IsParent(n, i, c))
    ensures TableOk(mem, tables, c) && c.depth > 0 && Dir(c.depth - 1, c.prefix / 512) in tables
  {
    assert TableOk(mem, tables, c);
    forall n, i: nat | n in tables && n.depth < 3 && i < 512
      ensures TableOk(mem, tables, n)
      ensures DownToPage(mem[tables[n]][i]) == tables[c] <==> IsParent(n, i, c)
    {
      assert SlotOk(mem, tables, n, i);
      Digits(n.prefix, i);
    }
  }

  lemma TableFacts(mem: Memory, tables: Tables, c: Dir)
    requires Sound(mem, tables)
    ensures c in tables ==> GoodPage(tables[c]) && tables[c] in mem
    ensures c in tables && c.depth > 0 ==> Dir(c.depth - 1, c.prefix / 512) in tables
  {
    if c in tables { assert TableOk(mem, tables, c); }
  }

  /** The tables on the way to page `p`. */
  lemma WayTo(mem: Memory, tables: Tables, p: nat)
    requires Sound(mem, tables) && p < PAGES
    ensures Dir(3, p / 512) in tables ==> Dir(2, p / 512 / 512) in tables
    ensures Dir(2, p / 512 / 512) in tables ==> Dir(1, p / 512 / 512 / 512) in tables
    ensures TableOk(mem, tables, ROOT)
  {
    TableFacts(mem, tables, Dir(3, p / 512));
    TableFacts(mem, tables, Dir(2, p / 512 / 512));
    assert TableOk(mem, tables, ROOT);
  }

  /** The digits of an address lead to its page. */
  lemma WayOf(virt: nat)
    ensures var p := PageNo(virt);
            && Child(ROOT, Pml4Index(virt)) == Dir(1, p / 512 / 512 / 512)
            && Child(Dir(1, p / 512 / 512 / 512), PdpIndex(virt)) == Dir(2, p / 512 / 512)
            && Child(Dir(2, p / 512 / 512), PdIndex(virt)) == Dir(3, p / 512)
            && Child(Dir(3, p / 512), PtIndex(virt)) == Dir(4, p)
    ensures Pml4Index(virt) < 512 && PdpIndex(virt) < 512 && PdIndex(virt) < 512 && PtIndex(virt) < 512
  {
    Indices(virt);
  }

  // ----- what the two writes do

  function WithEntry(t: Page, i: nat, entry: nat): Page
    requires i < |t|
  {
    t[..i] + [entry] + t[i + 1..]
  }

  /** `writePointerTableEntry`, for a given entry. */
  function Stored(mem: Memory, table: nat, i: nat, entry: nat): Memory
    requires table in mem && |mem[table]| == 512 && i < 512
  {
    mem[table := WithEntry(mem[table], i, entry)]
  }

  /** A new, zeroed page is hung into slot `i` of a table. */
  function Hung(mem: Memory, table: nat, i: nat, page: nat): Memory
    requires table in mem && |mem[table]| == 512 && i < 512 && page !in mem
  {
    Stored(mem[page := EmptyTable()], table, i, Pack(page))
  }

  ghost predicate CanHang(mem: Memory, tables: Tables, n: Dir, i: nat, page: nat) {
    && Sound(mem, tables) && n in tables && n.depth < 3 && i < 512
    && TableOk(mem, tables, n) && SlotOk(mem, tables, n, i) && mem[tables[n]][i] == 0
    && GoodPage(page) && page !in mem
  }

  lemma HangKeeps(mem: Memory, tables: Tables, n: Dir, i: nat, page: nat)
    requires CanHang(mem, tables, n, i, page)
    ensures Sound(Hung(mem, tables[n], i, page), tables[Child(n, i) := page])
  {
    var mem', tables', c := Hung(mem, tables[n], i, page), tables[Child(n, i) := page], Child(n, i);
    ChildIsNew(mem, tables, n, i);
    PagesInMemory(mem, tables);
    forall m | m in tables' ensures TableOk(mem', tables', m) {
      HungTable(mem, tables, n, i, page, m);
    }
    forall m, j | m in tables' && m.depth < 3 && 0 <= j < 512 ensures SlotOk(mem', tables', m, j) {
      HungTable(mem, tables, n, i, page, m);
      HungSlot(mem, tables, n, i, page, m, j);
    }
  }

  lemma PagesInMemory(mem: Memory, tables: Tables)
    requires Sound(mem, tables)
    ensures forall m :: m in tables ==> tables[m] in mem
  {
    forall m | m in tables ensures tables[m] in mem { assert TableOk(mem, tables, m); }
  }

  lemma ChildIsNew(mem: Memory, tables: Tables, n: Dir, i: nat)
    requires Sound(mem, tables) && n in tables && n.depth < 3 && i < 512
    requires TableOk(mem, tables, n) && SlotOk(mem, tables, n, i) && mem[tables[n]][i] == 0
    ensures Child(n, i) !in tables
  {
    TableFacts(mem, tables, Child(n, i));
  }

  lemma HungTable(mem: Memory, tables: Tables, n: Dir, i: nat, page: nat, m: Dir)
    requires CanHang(mem, tables, n, i, page) && Child(n, i) !in tables
    requires m in tables || m == Child(n, i)
    ensures TableOk(Hung(mem, tables[n], i, page), tables[Child(n, i) := page], m)
  {
    assert Child(n, i).prefix / 512 == n.prefix;
    if m in tables { assert TableOk(mem, tables, m); }
  }

  lemma HungSlot(mem: Memory, tables: Tables, n: Dir, i: nat, page: nat, m: Dir, j: nat)
    requires CanHang(mem, tables, n, i, page) && Child(n, i) !in tables
    requires (m in tables || m == Child(n, i)) && m.depth < 3 && j < 512
    requires TableOk(Hung(mem, tables[n], i, page), tables[Child(n, i) := page], m)
    ensures SlotOk(Hung(mem, tables[n], i, page), tables[Child(n, i) := page], m, j)
  {
    PackedAddress(page);
    if m in tables {
      assert SlotOk(mem, tables, m, j);
      assert Child(m, j) == Child(n, i) ==> m == n && j == i;
      assert Apart(tables);
    } else {
      TableFacts(mem, tables, Child(m, j));
    }
  }

  /** The flat map does not notice. */
  lemma HangKeepsFlat(mem: Memory, tables: Tables, n: Dir, i: nat, page: nat)
    requires CanHang(mem, tables, n, i, page)
    requires Sound(Hung(mem, tables[n], i, page), tables[Child(n, i) := page])
    ensures Flat(Hung(mem, tables[n], i, page), tables[Child(n, i) := page]) == Flat(mem, tables)
  {
    ChildIsNew(mem, tables, n, i);
    forall p: nat | p < PAGES
      ensures RawEntry(Hung(mem, tables[n], i, page), tables[Child(n, i) := page], p) == RawEntry(mem, tables, p)
    {
      var d := Dir(3, p / 512);
      if d in tables { assert TableOk(mem, tables, d) && Apart(tables); }
    }
  }

  ghost predicate CanStore(mem: Memory, tables: Tables, n: Dir, i: nat) {
    Sound(mem, tables) && TableOk(mem, tables, n) && n.depth == 3 && i < 512 && Child(n, i).prefix < PAGES
  }

  lemma StoreKeeps(mem: Memory, tables: Tables, n: Dir, i: nat, entry: nat)
    requires CanStore(mem, tables, n, i)
    ensures Sound(Stored(mem, tables[n], i, entry), tables)
  {
    var mem' := Stored(mem, tables[n], i, entry);
    forall m | m in tables ensures TableOk(mem', tables, m) {
      assert TableOk(mem, tables, m);
    }
    forall m, j | m in tables && m.depth < 3 && 0 <= j < 512 ensures SlotOk(mem', tables, m, j) {
      assert SlotOk(mem, tables, m, j) && Apart(tables) && TableOk(mem', tables, m);
    }
  }

  /** Writing a page-table entry changes the flat map at one page. */
  lemma StoreIsUpdate(mem: Memory, tables: Tables, n: Dir, i: nat, entry: nat)
    requires CanStore(mem, tables, n, i)
    ensures Flat(Stored(mem, tables[n], i, entry), tables) == Flat(mem, tables)[Child(n, i).prefix := entry]
  {
    var mem' := Stored(mem, tables[n], i, entry);
    forall p: nat | p < PAGES
      ensures RawEntry(mem', tables, p) == if p == Child(n, i).prefix then entry else RawEntry(mem, tables, p)
    {
      var d := Dir(3, p / 512);
      if d in tables { assert TableOk(mem, tables, d) && Apart(tables); }
    }
  }

  // ----- mapping ranges

  /** `n` pages from `virt` on are mapped to the frames from `phys` on. */
  ghost function MapPages(f: imap<nat, nat>, phys: nat, virt: nat, n: nat): imap<nat, nat> {
    if n == 0 then f else MapPages(f, phys, virt, n - 1)[NthPage(virt, n - 1) := Pack(phys + (n - 1) * SIZE_4KB)]
  }

  ghost predicate Hits(virt: nat, i: nat, p: nat) {
    p == NthPage(virt, i)
  }

  /** Page `p` is none of the `n` pages from `virt` on. */
  ghost predicate Outside(virt: nat, n: nat, p: nat) {
    forall i: nat {:trigger Hits(virt, i, p)} :: i < n ==> !Hits(virt, i, p)
  }

  function At(f: imap<nat, nat>, p: nat): nat {
    if p in f then f[p] else 0
  }

  ghost predicate MappedTo(g: imap<nat, nat>, virt: nat, i: nat, entry: nat) {
    At(g, NthPage(virt, i)) == entry
  }

  lemma MapPagesMore(f: imap<nat, nat>, g: imap<nat, nat>, phys: nat, virt: nat, n: nat, page: nat, frame: nat, next: nat)
    requires g == MapPages(f, phys, virt, n) && next == n + 1
    requires page == virt + n * SIZE_4KB && frame == phys + n * SIZE_4KB
    ensures g[PageNo(page) := Pack(frame)] == MapPages(f, phys, virt, next)
  {
    NthPageNo(virt, n);
  }

  lemma OutsideLess(virt: nat, n: nat, p: nat)
    requires Outside(virt, n + 1, p)
    ensures Outside(virt, n, p) && p != NthPage(virt, n)
  {
    assert !Hits(virt, n, p);
  }

  /** Each page of the range gets its own frame. */
  lemma {:induction false} MapPagesAt(f: imap<nat, nat>, phys: nat, virt: nat, n: nat, i: nat)
    requires i < n <= PAGES
    ensures MappedTo(MapPages(f, phys, virt, n), virt, i, Pack(phys + i * SIZE_4KB))
  {
    if i < n - 1 {
      MapPagesAt(f, phys, virt, n - 1, i);
      NthPagesApart(virt, i, n - 1);
    }
  }

  /** No other page changes. */
  lemma {:induction false} MapPagesElsewhere(f: imap<nat, nat>, phys: nat, virt: nat, n: nat, p: nat)
    requires Outside(virt, n, p)
    ensures At(MapPages(f, phys, virt, n), p) == At(f, p)
  {
    if n > 0 {
      OutsideLess(virt, n - 1, p);
      MapPagesElsewhere(f, phys, virt, n - 1, p);
    }
  }

  /** The physical address behind a mapped virtual one. */
  function Translate(f: imap<nat, nat>, virt: nat): nat {
    DownToPage(At(f, PageNo(virt))) + virt % SIZE_4KB
  }

  lemma PageOfOffset(virt: nat, k: nat)
    requires virt % SIZE_4KB == 0
    ensures PageNo(virt + k) == NthPage(virt, k / SIZE_4KB) && (virt + k) % SIZE_4KB == k % SIZE_4KB
  {
    var i := k / SIZE_4KB;
    NthPageNo(virt, i);
    assert virt + k == virt + i * SIZE_4KB + k % SIZE_4KB;
  }

  lemma FrameAt(phys: nat, i: nat)
    requires phys % SIZE_4KB == 0 && phys + i * SIZE_4KB < SIZE_48
    ensures Pack(phys + i * SIZE_4KB) != 0 && DownToPage(Pack(phys + i * SIZE_4KB)) == phys + i * SIZE_4KB
  {
    PackedAddress(phys + i * SIZE_4KB);
  }

  /** Within a mapped range addresses translate one to one. */
  lemma RangeTranslates(f: imap<nat, nat>, phys: nat, virt: nat, n: nat, k: nat)
    requires phys % SIZE_4KB == 0 && virt % SIZE_4KB == 0 && phys + n * SIZE_4KB <= SIZE_48 && k < n * SIZE_4KB
    ensures At(MapPages(f, phys, virt, n), PageNo(virt + k)) != 0
    ensures Translate(MapPages(f, phys, virt, n), virt + k) == phys + k
  {
    PageOfOffset(virt, k);
    var i := k / SIZE_4KB;
    MapPagesAt(f, phys, virt, n, i);
    FrameAt(phys, i);
  }

  /** Elsewhere they translate as before. */
  lemma RangeKeepsOthers(f: imap<nat, nat>, phys: nat, virt: nat, n: nat, v: nat)
    requires Outside(virt, n, PageNo(v))
    ensures Translate(MapPages(f, phys, virt, n), v) == Translate(f, v)
  {
    MapPagesElsewhere(f, phys, virt, n, PageNo(v));
  }

  // ----- aliasing ranges

  /** An entry for the same frame. */
  function Alias(entry: nat): nat {
    Pack(DownToPage(entry))
  }

  /** One page gets the frame of another. */
  ghost function AliasStep(f: imap<nat, nat>, to: nat, from: nat, ok: bool): imap<nat, nat> {
    if ok then f[PageNo(to) := Alias(At(f, PageNo(from)))] else f
  }

  /** Page by page, `to` gets the frames of `from`; steps that are not `ok` are skipped. */
  ghost function CopyPages(f: imap<nat, nat>, to: nat, from: nat, ok: seq<bool>): imap<nat, nat> {
    if ok == [] then f else
      var i := |ok| - 1;
      AliasStep(CopyPages(f, to, from, ok[..i]), to + i * SIZE_4KB, from + i * SIZE_4KB, ok[i])
  }

  /** The same in page numbers. */
  lemma CopyPagesLast(f: imap<nat, nat>, to: nat, from: nat, ok: seq<bool>)
    requires ok != []
    ensures var g, i := CopyPages(f, to, from, ok[..|ok| - 1]), |ok| - 1;
            CopyPages(f, to, from, ok) == if ok[i] then g[NthPage(to, i) := Alias(At(g, NthPage(from, i)))] else g
  {
    NthPageNo(to, |ok| - 1);
    NthPageNo(from, |ok| - 1);
  }

  lemma CopyPagesMore(f: imap<nat, nat>, g: imap<nat, nat>, to: nat, from: nat, ok: seq<bool>, toPage: nat, fromPage: nat, b: bool)
    requires g == CopyPages(f, to, from, ok) && toPage == to + |ok| * SIZE_4KB && fromPage == from + |ok| * SIZE_4KB
    ensures AliasStep(g, toPage, fromPage, b) == CopyPages(f, to, from, ok + [b])
  {
    assert (ok + [b])[..|ok|] == ok;
  }

  lemma OffsetDropped(entry: nat, virt: nat, phys: nat)
    requires phys == DownToPage(entry) + virt % SIZE_4KB || (entry == 0 && (phys == 0 || phys == virt % SIZE_4KB))
    ensures DownToPage(phys) == DownToPage(entry)
  {
  }

  lemma SamePage(virt: nat)
    ensures PageNo(DownToPage(virt)) == PageNo(virt)
  {
  }

  /** Mapping the frame of one page at another makes an alias. */
  lemma OneAlias(f: imap<nat, nat>, to: nat, from: nat, frame: nat, target: nat, done: nat, ok: bool, g: imap<nat, nat>)
    requires frame == DownToPage(At(f, PageNo(from))) && target == DownToPage(to) && g == MapPages(f, frame, target, done)
    requires if ok then done == RangePages(SIZE_4KB) else done < RangePages(SIZE_4KB)
    ensures g == AliasStep(f, to, from, ok)
  {
    OnePage();
    if ok {
      SamePage(to);
      DownTwice(At(f, PageNo(from)));
      MapPagesMore(f, f, frame, target, 0, target, frame, 1);
    }
  }

  lemma OnePage()
    ensures RangePages(SIZE_4KB) == 1
  {
  }

  lemma DownTwice(a: nat)
    ensures DownToPage(DownToPage(a)) == DownToPage(a)
  {
  }

  /** How many pages `to` lies above `from`, in the wrapping order of page numbers. */
  function Distance(to: nat, from: nat): (d: nat)
    ensures d < PAGES
  {
    if PageNo(from) <= PageNo(to) then PageNo(to) - PageNo(from) else PageNo(to) + PAGES - PageNo(from)
  }

  /** The place in `from` that a copied page stems from. */
  function Origin(i: nat, d: nat): (r: nat)
    ensures r <= i && (d > 0 ==> r < d)
    decreases i
  {
    if d == 0 || i < d then i else Origin(i - d, d)
  }

  predicate AllOk(ok: seq<bool>) {
    forall i :: 0 <= i < |ok| ==> ok[i]
  }

  /** A source page is a target page `d` steps earlier, and no other. */
  lemma SourceIsTarget(to: nat, from: nat, i: nat, j: nat)
    requires j < i < PAGES
    ensures var d := Distance(to, from); NthPage(to, j) == NthPage(from, i) <==> d > 0 && j + d == i
  {
    NthPages(to, j);
    NthPages(from, i);
  }

  lemma AliasAgain(entry: nat)
    ensures Alias(Alias(entry)) == Alias(entry)
  {
    PackedAddress(DownToPage(entry));
  }

  /** What the copy leads to, for every overlap: the first `d` source pages over and over when `to`
      lies `d` pages above `from`, and every source page when they coincide. */
  lemma {:induction false} CopyPagesAt(f: imap<nat, nat>, to: nat, from: nat, ok: seq<bool>, i: nat)
    requires i < |ok| <= PAGES && AllOk(ok)
    ensures MappedTo(CopyPages(f, to, from, ok), to, i, Alias(At(f, NthPage(from, Origin(i, Distance(to, from))))))
    decreases |ok|, 0
  {
    var n, front := |ok| - 1, ok[..|ok| - 1];
    var g := CopyPages(f, to, from, front);
    LastStep(f, g, to, from, ok, i);
    if i < n {
      CopyPagesAt(f, to, from, front, i);
    } else {
      SourceAfterCopy(f, to, from, front);
    }
  }

  /** The last step writes its own page only. */
  lemma LastStep(f: imap<nat, nat>, g: imap<nat, nat>, to: nat, from: nat, ok: seq<bool>, i: nat)
    requires i < |ok| <= PAGES && AllOk(ok) && g == CopyPages(f, to, from, ok[..|ok| - 1])
    ensures At(CopyPages(f, to, from, ok), NthPage(to, i))
            == if i < |ok| - 1 then At(g, NthPage(to, i)) else Alias(At(g, NthPage(from, |ok| - 1)))
  {
    CopyPagesLast(f, to, from, ok);
    if i < |ok| - 1 { NthPagesApart(to, i, |ok| - 1); }
  }

  /** Pages that are no targets keep their entry. */
  lemma {:induction false} CopyPagesElsewhere(f: imap<nat, nat>, to: nat, from: nat, ok: seq<bool>, p: nat)
    requires Outside(to, |ok|, p)
    ensures At(CopyPages(f, to, from, ok), p) == At(f, p)
  {
    if ok != [] {
      OutsideLess(to, |ok| - 1, p);
      CopyPagesLast(f, to, from, ok);
      CopyPagesElsewhere(f, to, from, ok[..|ok| - 1], p);
    }
  }

  /** After some steps, the next source page is untouched or was the target `d` steps earlier. */
  lemma {:induction false} SourceAfterCopy(f: imap<nat, nat>, to: nat, from: nat, ok: seq<bool>)
    requires |ok| < PAGES && AllOk(ok)
    ensures Alias(At(CopyPages(f, to, from, ok), NthPage(from, |ok|)))
            == Alias(At(f, NthPage(from, Origin(|ok|, Distance(to, from)))))
    decreases |ok|, 1
  {
    var d, n := Distance(to, from), |ok|;
    if 0 < d <= n {
      SourceIsTarget(to, from, n, n - d);
      CopyPagesAt(f, to, from, ok, n - d);
      AliasAgain(At(f, NthPage(from, Origin(n - d, d))));
    } else {
      forall j: nat | j < n ensures !Hits(to, j, NthPage(from, n)) {
        SourceIsTarget(to, from, n, j);
      }
      CopyPagesElsewhere(f, to, from, ok, NthPage(from, n));
    }
  }

  function AllTrue(n: nat): (ok: seq<bool>)
    ensures |ok| == n && AllOk(ok)
  {
    seq(n, _ => true)
  }

  ghost predicate Aliased(f: imap<nat, nat>, to: nat, from: nat, n: nat, i: nat) {
    MappedTo(CopyPages(f, to, from, AllTrue(n)), to, i, Alias(At(f, NthPage(from, i))))
  }

  /** After a complete copy, each page of `to` has the frame that its page of `from` had. */
  ghost predicate CopiesAll(f: imap<nat, nat>, to: nat, from: nat, n: nat) {
    forall i: nat {:trigger Aliased(f, to, from, n, i)} :: i < n ==> Aliased(f, to, from, n, i)
  }

  /** The copy is a copy, whatever is mapped, exactly when `to` does not lie less than `n` pages
      above `from`. */
  lemma CopiesExactly(to: nat, from: nat, n: nat)
    requires n <= PAGES
    ensures (forall f :: CopiesAll(f, to, from, n)) <==> Distance(to, from) == 0 || n <= Distance(to, from)
  {
    if Distance(to, from) == 0 || n <= Distance(to, from) {
      forall f, i: nat | i < n ensures Aliased(f, to, from, n, i) {
        CopyPagesAt(f, to, from, AllTrue(n), i);
      }
    } else {
      var f := Repeated(to, from, n);
    }
  }

  lemma Repeated(to: nat, from: nat, n: nat) returns (f: imap<nat, nat>)
    requires n <= PAGES && 0 < Distance(to, from) < n
    ensures !CopiesAll(f, to, from, n)
  {
    var d := Distance(to, from);
    NthPagesApart(from, 0, d);
    f := imap[NthPage(from, 0) := SIZE_4KB];
    CopyPagesAt(f, to, from, AllTrue(n), d);
    FirstAgain(f, CopyPages(f, to, from, AllTrue(n)), to, from, d);
    assert !Aliased(f, to, from, n, d);
  }

  lemma FirstAgain(f: imap<nat, nat>, g: imap<nat, nat>, to: nat, from: nat, d: nat)
    requires d > 0 && At(f, NthPage(from, 0)) == SIZE_4KB && At(f, NthPage(from, d)) == 0
    requires MappedTo(g, to, d, Alias(At(f, NthPage(from, Origin(d, d)))))
    ensures !MappedTo(g, to, d, Alias(At(f, NthPage(from, d))))
  {
    assert Origin(d, d) == 0;
  }

  // ----- laying out memory regions

  const MEMORY_TYPE_FREE: nat := 1

  datatype Region = Region(address: nat, length: nat, kind: nat)

  /** Pages of the free regions among the first `i`. */
  function PagesBefore(regions: seq<Region>, i: nat): nat
    requires i <= |regions|
  {
    if i == 0 then 0
    else PagesBefore(regions, i - 1) + if regions[i - 1].kind == MEMORY_TYPE_FREE then regions[i - 1].length / SIZE_4KB else 0
  }

  /** How many pages `mapOrCreateRange` maps: one for an empty range too. */
  function RangePages(size: nat): (n: nat)
    ensures n > 0
  {
    if size == 0 then 1 else (size + SIZE_4KB - 1) / SIZE_4KB
  }

  lemma SomePages(size: nat)
    requires 0 < size <= SIZE_2GB
    ensures UpToPage(size) / SIZE_4KB > 0
  {
  }

  lemma RangeGoesOn(size: nat, n: nat)
    requires n > 0
    ensures n * SIZE_4KB < size <==> n < RangePages(size)
  {
  }

  ghost function Layout(f: imap<nat, nat>, regions: seq<Region>, i: nat, virt: nat): imap<nat, nat>
    requires i <= |regions|
  {
    if i == 0 then f else
      var g, r := Layout(f, regions, i - 1, virt), regions[i - 1];
      if r.kind != MEMORY_TYPE_FREE then g
      else MapPages(g, DownToPage(r.address), virt + PagesBefore(regions, i - 1) * SIZE_4KB, RangePages(DownToPage(r.length)))
  }

  /** Regions that are not free change nothing. */
  lemma LayoutMore(f: imap<nat, nat>, regions: seq<Region>, i: nat, virt: nat)
    requires i < |regions|
    ensures regions[i].kind != MEMORY_TYPE_FREE ==>
              Layout(f, regions, i + 1, virt) == Layout(f, regions, i, virt) && PagesBefore(regions, i + 1) == PagesBefore(regions, i)
  {
  }

  /** A free region is mapped behind those before it. */
  lemma LayoutMapped(f: imap<nat, nat>, g: imap<nat, nat>, h: imap<nat, nat>, regions: seq<Region>, i: nat, virt: nat,
                     size: nat, phys: nat, start: nat, range: nat, done: nat)
    requires i < |regions| && regions[i].kind == MEMORY_TYPE_FREE
    requires g == Layout(f, regions, i, virt) && size == PagesBefore(regions, i) * SIZE_4KB
    requires phys == DownToPage(regions[i].address) && start == virt + size && range == DownToPage(regions[i].length)
    requires done == RangePages(range) && h == MapPages(g, phys, start, done)
    ensures h == Layout(f, regions, i + 1, virt) && size + range == PagesBefore(regions, i + 1) * SIZE_4KB
  {
  }

  lemma NthPageShifted(virt: nat, a: nat, k: nat)
    ensures NthPage(virt + a * SIZE_4KB, k) == NthPage(virt, a + k)
  {
    NthPageNo(virt + a * SIZE_4KB, k);
    NthPageNo(virt, a + k);
    assert virt + a * SIZE_4KB + k * SIZE_4KB == virt + (a + k) * SIZE_4KB;
  }

  lemma RangePagesOf(length: nat)
    ensures RangePages(DownToPage(length)) == if length < SIZE_4KB then 1 else length / SIZE_4KB
  {
  }

  lemma {:induction false} PagesBeforeGrows(regions: seq<Region>, i: nat, j: nat)
    requires i <= j <= |regions|
    ensures PagesBefore(regions, i) <= PagesBefore(regions, j)
    decreases j
  {
    if i < j { PagesBeforeGrows(regions, i, j - 1); }
  }

  /** One region more changes nothing among the pages before it. */
  lemma LayoutStep(f: imap<nat, nat>, regions: seq<Region>, n: nat, virt: nat, at: nat)
    requires n < |regions| && at < PagesBefore(regions, n) && PagesBefore(regions, n + 1) < PAGES
    ensures At(Layout(f, regions, n + 1, virt), NthPage(virt, at)) == At(Layout(f, regions, n, virt), NthPage(virt, at))
  {
    var r, base := regions[n], PagesBefore(regions, n);
    if r.kind == MEMORY_TYPE_FREE {
      RangePagesOf(r.length);
      var count, start := RangePages(DownToPage(r.length)), virt + base * SIZE_4KB;
      forall i: nat | i < count ensures !Hits(start, i, NthPage(virt, at)) {
        NthPageShifted(virt, base, i);
        NthPagesApart(virt, at, base + i);
      }
      MapPagesElsewhere(Layout(f, regions, n, virt), DownToPage(r.address), start, count, NthPage(virt, at));
    }
  }

  /** Every free region lies behind the free regions before it, page by page, whatever comes later. */
  lemma {:induction false} LayoutIsPrefixSum(f: imap<nat, nat>, regions: seq<Region>, n: nat, virt: nat, i: nat, k: nat)
    requires i < n <= |regions| && regions[i].kind == MEMORY_TYPE_FREE && k < regions[i].length / SIZE_4KB
    requires PagesBefore(regions, n) < PAGES
    ensures MappedTo(Layout(f, regions, n, virt), virt, PagesBefore(regions, i) + k, Pack(DownToPage(regions[i].address) + k * SIZE_4KB))
    decreases n
  {
    if i < n - 1 {
      PagesBeforeGrows(regions, n - 1, n);
      PagesBeforeGrows(regions, i + 1, n - 1);
      LayoutIsPrefixSum(f, regions, n - 1, virt, i, k);
      LayoutStep(f, regions, n - 1, virt, PagesBefore(regions, i) + k);
    } else {
      OneRegion(Layout(f, regions, i, virt), regions[i], virt, PagesBefore(regions, i), k);
    }
  }

  lemma OneRegion(f: imap<nat, nat>, r: Region, virt: nat, base: nat, k: nat)
    requires k < r.length / SIZE_4KB <= PAGES
    ensures MappedTo(MapPages(f, DownToPage(r.address), virt + base * SIZE_4KB, RangePages(DownToPage(r.length))),
                     virt, base + k, Pack(DownToPage(r.address) + k * SIZE_4KB))
  {
    RangePagesOf(r.length);
    NthPageShifted(virt, base, k);
    MapPagesAt(f, DownToPage(r.address), virt + base * SIZE_4KB, RangePages(DownToPage(r.length)), k);
  }
}
