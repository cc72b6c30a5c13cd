/** `memory/kheap/kheap_buddy.c`: allocation by splitting, release by merging. */
module BuddyHeaps {
  import opened Bytes
  import opened BuddyTree

  // ----- what the single writes keep

  ghost predicate SameLive(g: Geometry, t: Table, u: Table) {
    forall m: Node :: Live(g, u, m) <==> Live(g, t, m)
  }

  /** `u` has the live blocks of `t` and `n`. */
  ghost predicate LiveAdded(g: Geometry, t: Table, u: Table, n: Node) {
    g.IsNode(n) && !Live(g, t, n) && forall m: Node :: Live(g, u, m) <==> Live(g, t, m) || m == n
  }

  ghost predicate NoFreeAt(g: Geometry, t: Table, l: nat) {
    forall n: Node {:trigger g.IsNode(n)} :: g.IsNode(n) && n.lvl == l ==> n in t && !t[n].free
  }

  /** Free entries of level `l` are children of `p`. */
  ghost predicate OnlyFreeUnder(g: Geometry, t: Table, l: nat, p: Node) {
    forall n: Node {:trigger g.IsNode(n)} :: g.IsNode(n) && n.lvl == l && n in t && t[n].free ==> l > 0 && g.Parent(n) == p
  }

  function SplitTable(g: Geometry, t: Table, n: Node): Table {
    t[n := SPLITUP][g.Child(n, false) := FREE][g.Child(n, true) := FREE]
  }

  /** `splitEntryUp` on the free entry `n`. */
  lemma SplitKeeps(g: Geometry, t: Table, n: Node, open: set<Node>)
    requires g.Ok() && Shaped(g, t) && MergedExcept(g, t, open) && open <= Above(g, n)
    requires g.IsNode(n) && t[n].free && n.lvl + 1 < g.levels
    ensures Shaped(g, SplitTable(g, t, n)) && MergedExcept(g, SplitTable(g, t, n), {n})
    ensures SameLive(g, t, SplitTable(g, t, n))
  {
    SplitKeepsShape(g, t, n);
    SplitKeepsPairs(g, t, n, open);
    var u := SplitTable(g, t, n);
    g.ChildIsNode(n, false);
    g.ChildIsNode(n, true);
    assert OneFlag(t[n]) && LinkOk(g, t, g.Child(n, false)) && LinkOk(g, t, g.Child(n, true));
    forall m: Node ensures Live(g, u, m) <==> Live(g, t, m) { }
  }

  lemma SplitKeepsShape(g: Geometry, t: Table, n: Node)
    requires g.Ok() && Shaped(g, t) && g.IsNode(n) && t[n].free && n.lvl + 1 < g.levels
    ensures Shaped(g, SplitTable(g, t, n))
  {
    SplitKeepsFlags(g, t, n);
    forall m: Node | g.IsNode(m) ensures LinkOk(g, SplitTable(g, t, n), m) {
      LinkAfterSplit(g, t, n, m);
    }
  }

  lemma SplitKeepsFlags(g: Geometry, t: Table, n: Node)
    requires g.Ok() && Shaped(g, t) && g.IsNode(n) && t[n].free && n.lvl + 1 < g.levels
    ensures Flagged(g, SplitTable(g, t, n))
  {
    g.ChildIsNode(n, false);
    g.ChildIsNode(n, true);
  }

  lemma LinkAfterSplit(g: Geometry, t: Table, n: Node, m: Node)
    requires g.Ok() && Shaped(g, t) && g.IsNode(n) && t[n].free && n.lvl + 1 < g.levels && g.IsNode(m)
    ensures LinkOk(g, SplitTable(g, t, n), m)
  {
    g.ChildIsNode(n, false);
    g.ChildIsNode(n, true);
    assert OneFlag(t[n]) && LinkOk(g, t, m);
    if m.lvl > 0 {
      g.ParentIsNode(m);
      assert LinkOk(g, t, g.Child(n, false)) && LinkOk(g, t, g.Child(n, true));
      if g.Parent(m) == n { OneOfTwo(g, m, n); }
    }
  }

  lemma SplitKeepsPairs(g: Geometry, t: Table, n: Node, open: set<Node>)
    requires g.Ok() && Shaped(g, t) && MergedExcept(g, t, open) && open <= Above(g, n)
    requires g.IsNode(n) && t[n].free && n.lvl + 1 < g.levels
    ensures MergedExcept(g, SplitTable(g, t, n), {n})
  {
    var u := SplitTable(g, t, n);
    g.ChildIsNode(n, false);
    g.ChildIsNode(n, true);
    forall m: Node | g.IsNode(m) && m.lvl > 0 && g.Parent(m) != n ensures PairOk(g, u, m) {
      g.BuddyIsNode(m);
      PairFrom(g, t, n, open, m);
    }
  }

  /** The parent of `n`, if it has one. */
  function Above(g: Geometry, n: Node): set<Node> {
    if n.lvl > 0 then {g.Parent(n)} else {}
  }

  lemma OneOfTwo(g: Geometry, m: Node, n: Node)
    requires m.lvl > 0 && g.Parent(m) == n
    ensures m == g.Child(n, false) || m == g.Child(n, true)
  {
  }

  /** A pair that was not excepted is still in order; an excepted one is `n` and its buddy. */
  lemma PairFrom(g: Geometry, t: Table, n: Node, open: set<Node>, m: Node)
    requires g.Ok() && g.IsNode(n) && g.IsNode(m) && m.lvl > 0 && MergedExcept(g, t, open) && open <= Above(g, n)
    ensures PairOk(g, t, m) || m == n || g.Buddy(m) == n
  {
    if g.Parent(m) in open && m != n { Siblings(g, m, n); }
  }

  lemma Siblings(g: Geometry, m: Node, n: Node)
    requires 0 < m.lvl && 0 < n.lvl && g.Parent(m) == g.Parent(n) && m != n
    ensures g.Buddy(m) == n
  {
  }

  /** Taking the free entry `n`, whose parent may be the one just split. */
  lemma TakeKeeps(g: Geometry, t: Table, n: Node, open: set<Node>)
    requires g.Ok() && Shaped(g, t) && MergedExcept(g, t, open) && open <= Above(g, n)
    requires g.IsNode(n) && t[n].free
    ensures Sound(g, t[n := ALLOCATED]) && LiveAdded(g, t, t[n := ALLOCATED], n)
  {
    var u := t[n := ALLOCATED];
    assert OneFlag(t[n]);
    FlagKeepsShape(g, t, n, ALLOCATED);
    forall m: Node | g.IsNode(m) && m.lvl > 0 ensures PairOk(g, u, m) {
      g.BuddyIsNode(m);
      PairFrom(g, t, n, open, m);
    }
    forall m: Node ensures Live(g, u, m) <==> Live(g, t, m) || m == n { }
  }

  /** A leaf may become free or live. */
  lemma FlagKeepsShape(g: Geometry, t: Table, n: Node, f: Flags)
    requires g.Ok() && Shaped(g, t) && g.IsNode(n) && t[n] != BLANK && !t[n].splitUp && (f == FREE || f == ALLOCATED)
    ensures Shaped(g, t[n := f]) && OneFlag(t[n])
  {
    assert OneFlag(t[n]);
    var u := t[n := f];
    assert forall m: Node :: m in u <==> m in t;
    assert forall m: Node :: m in t ==> (u[m] == BLANK <==> t[m] == BLANK) && (u[m].splitUp <==> t[m].splitUp);
    forall m: Node | g.IsNode(m) ensures LinkOk(g, u, m) {
      assert LinkOk(g, t, m);
    }
  }

  /** `addEntry` on a live block. */
  lemma ReleaseKeeps(g: Geometry, t: Table, n: Node)
    requires Sound(g, t) && Live(g, t, n)
    ensures Shaped(g, t[n := FREE]) && LiveAdded(g, t[n := FREE], t, n)
    ensures MergedExcept(g, t[n := FREE], Above(g, n))
    ensures n.lvl == 0 || (g.Buddy(n) in t && !t[g.Buddy(n)].free) ==> Merged(g, t[n := FREE])
  {
    var u := t[n := FREE];
    assert OneFlag(t[n]);
    FlagKeepsShape(g, t, n, FREE);
    forall m: Node | g.IsNode(m) && m.lvl > 0
      ensures m != n && g.Buddy(m) != n ==> PairOk(g, u, m)
      ensures m == n || g.Buddy(m) == n ==> n.lvl > 0 && g.Parent(m) == g.Parent(n) && (m == n || m == g.Buddy(n))
    {
      assert PairOk(g, t, m);
      g.BuddyIsNode(m);
    }
    forall m: Node ensures Live(g, t, m) <==> Live(g, u, m) || m == n { }
  }

  function MergeTable(g: Geometry, t: Table, n: Node): Table
    requires n.lvl > 0
  {
    t[n := BLANK][g.Buddy(n) := BLANK][g.Parent(n) := FREE]
  }

  /** Two leaves that `merge` may join. */
  ghost predicate Mergeable(g: Geometry, t: Table, n: Node) {
    && g.Ok() && Shaped(g, t) && g.IsNode(n) && n.lvl > 0 && MergedExcept(g, t, {g.Parent(n)})
    && n in t && (t[n] == FREE || t[n] == ALLOCATED)
    && g.Buddy(n) in t && t[g.Buddy(n)] == FREE
  }

  /** One level of `merge`: the two leaves become their parent. */
  lemma MergeKeeps(g: Geometry, t: Table, n: Node)
    requires Mergeable(g, t, n)
    ensures g.IsNode(g.Parent(n)) && Shaped(g, MergeTable(g, t, n))
    ensures if t[n].alloc then LiveAdded(g, MergeTable(g, t, n), t, n) else SameLive(g, t, MergeTable(g, t, n))
    ensures MergedExcept(g, MergeTable(g, t, n), Above(g, g.Parent(n)))
    ensures g.Parent(n).lvl == 0 || (g.Buddy(g.Parent(n)) in t && !t[g.Buddy(g.Parent(n))].free) ==> Merged(g, MergeTable(g, t, n))
  {
    MergeKeepsShape(g, t, n);
    MergeKeepsPairs(g, t, n);
    g.BuddyIsNode(n);
    var u := MergeTable(g, t, n);
    assert LinkOk(g, t, n) && OneFlag(t[g.Parent(n)]);
    forall m: Node ensures Live(g, t, m) <==> Live(g, u, m) || (m == n && t[n].alloc) { }
  }

  lemma MergeKeepsShape(g: Geometry, t: Table, n: Node)
    requires Mergeable(g, t, n)
    ensures g.IsNode(g.Parent(n)) && Shaped(g, MergeTable(g, t, n))
  {
    MergeKeepsFlags(g, t, n);
    forall m: Node | g.IsNode(m) ensures LinkOk(g, MergeTable(g, t, n), m) {
      LinkAfterMerge(g, t, n, m);
    }
  }

  lemma MergeKeepsFlags(g: Geometry, t: Table, n: Node)
    requires Mergeable(g, t, n)
    ensures g.IsNode(g.Parent(n)) && Flagged(g, MergeTable(g, t, n))
  {
    g.ParentIsNode(n);
    g.BuddyIsNode(n);
    assert LinkOk(g, t, n);
  }

  lemma LinkAfterMerge(g: Geometry, t: Table, n: Node, m: Node)
    requires Mergeable(g, t, n) && g.IsNode(m)
    ensures LinkOk(g, MergeTable(g, t, n), m)
  {
    g.ParentIsNode(n);
    g.BuddyIsNode(n);
    assert LinkOk(g, t, n) && LinkOk(g, t, m);
    if m.lvl > 0 {
      g.ParentIsNode(m);
      if g.Parent(m) == g.Parent(n) && m != n {
        Siblings(g, m, n);
        g.BuddyIsNode(m);
      }
    }
  }

  lemma MergeKeepsPairs(g: Geometry, t: Table, n: Node)
    requires Mergeable(g, t, n)
    ensures var u, p := MergeTable(g, t, n), g.Parent(n);
            && MergedExcept(g, u, Above(g, p))
            && (p.lvl == 0 || (g.Buddy(p) in t && !t[g.Buddy(p)].free) ==> Merged(g, u))
  {
    var u, p := MergeTable(g, t, n), g.Parent(n);
    g.ParentIsNode(n);
    g.BuddyIsNode(n);
    forall m: Node | g.IsNode(m) && m.lvl > 0
      ensures m != p && g.Buddy(m) != p ==> PairOk(g, u, m)
      ensures m == p || g.Buddy(m) == p ==> p.lvl > 0 && g.Parent(m) == g.Parent(p) && (m == p || m == g.Buddy(p))
    {
      PairAfterMerge(g, t, n, u, p, m);
    }
  }

  lemma PairAfterMerge(g: Geometry, t: Table, n: Node, u: Table, p: Node, m: Node)
    requires Mergeable(g, t, n) && p == g.Parent(n) && g.IsNode(p) && u == MergeTable(g, t, n) && g.IsNode(m) && m.lvl > 0
    ensures m != p && g.Buddy(m) != p ==> PairOk(g, u, m)
    ensures m == p || g.Buddy(m) == p ==> p.lvl > 0 && g.Parent(m) == g.Parent(p) && (m == p || m == g.Buddy(p))
  {
    g.BuddyIsNode(n);
    g.BuddyIsNode(m);
    if g.Parent(m) == p {
      if m != n { Siblings(g, m, n); }
    } else {
      assert PairOk(g, t, m);
    }
  }

  // ----- a run of splits

  /** `splitAndReturn` from level `f` to level `k` has arrived at level `i`; `p` is the entry it split
      last. The levels below are without free entries, and so is level `i` but for the two halves
      of `p`. */
  ghost predicate Splitting(g: Geometry, t0: Table, t: Table, f: nat, i: nat, k: nat, p: Node) {
    && g.Ok() && Shaped(g, t) && SameLive(g, t0, t) && f <= i <= k < g.levels
    && (forall l :: i < l <= k ==> NoFreeAt(g, t, l))
    && (if i == f then Merged(g, t) && !NoFreeAt(g, t, i)
        else
          && g.IsNode(p) && p.lvl + 1 == i && MergedExcept(g, t, {p})
          && OnlyFreeUnder(g, t, i, p) && g.Child(p, false) in t && t[g.Child(p, false)].free)
  }

  lemma SplitStep(g: Geometry, t0: Table, t: Table, f: nat, i: nat, k: nat, p: Node, n: Node)
    requires Splitting(g, t0, t, f, i, k, p) && i < k
    requires g.IsNode(n) && n.lvl == i && t[n].free
    ensures Splitting(g, t0, SplitTable(g, t, n), f, i + 1, k, n)
  {
    var u := SplitTable(g, t, n);
    SplitKeeps(g, t, n, if i == f then {} else {p});
    g.ChildIsNode(n, false);
    g.ChildIsNode(n, true);
    forall m: Node | g.IsNode(m) && m.lvl == i + 1 && m in u && u[m].free ensures g.Parent(m) == n {
      assert NoFreeAt(g, t, i + 1);
    }
    forall l | i + 1 < l <= k ensures NoFreeAt(g, u, l) {
      assert NoFreeAt(g, t, l);
    }
  }

  /** Taking what the splits lead to. */
  lemma TakeAfterSplits(g: Geometry, t0: Table, t: Table, f: nat, k: nat, p: Node, n: Node)
    requires Splitting(g, t0, t, f, k, k, p) && g.IsNode(n) && n.lvl == k && t[n].free
    ensures Sound(g, t[n := ALLOCATED]) && LiveAdded(g, t0, t[n := ALLOCATED], n)
  {
    TakeKeeps(g, t, n, if k == f then {} else {p});
  }

  // ----- sizes

  /** `toNextLvl`: the least power of two that is not below `n`. */
  method ToNextLvl(n: nat) returns (ret: nat, ghost e: nat)
    ensures ret == Pow2(e) && n <= ret && (ret == 1 || ret < 2 * n)
  {
    if n == 0 { return 1, 0; }
    ret, e := 1, 0;
    var m := n - 1;
    TimesIsProduct(m, 1);
    while m > 0
      invariant m >= 0 && ret == Pow2(e) && Times(m, ret) <= n - 1 < Times(m, ret) + ret
      invariant ret == 1 || ret < 2 * n
    {
      TimesDouble(m / 2, ret);
      assert Times(m, ret) >= ret;
      assert m % 2 == 1 ==> Times(m, ret) == Times(2 * (m / 2), ret) + ret;
      m := m / 2;
      ret := ret * 2;
      e := e + 1;
    }
  }

  lemma Pow2Same(a: nat, b: nat)
    ensures Pow2(a) == Pow2(b) <==> a == b
  {
    if a < b { Pow2Grows(a, b); }
    if b < a { Pow2Grows(b, a); }
  }

  /** `findLvlForBlock`. */
  method FindLvlForBlock(g: Geometry, block: nat) returns (r: int)
    requires g.Ok()
    ensures r >= 0 ==> r < g.levels && g.BlockSize(r) == block
    ensures r < 0 ==> forall l: nat :: l < g.levels ==> g.BlockSize(l) != block
    ensures r < g.levels
  {
    var searchLvl: int := g.levels - 1;
    while searchLvl >= 0
      invariant -1 <= searchLvl < g.levels
      invariant forall l: nat :: searchLvl < l < g.levels ==> g.BlockSize(l) != block
    {
      if g.BlockSize(searchLvl) == block { break; }
      searchLvl := searchLvl - 1;
    }
    return if searchLvl < 0 then -ENFOUND else searchLvl;
  }

  /** A request is served from the level of the least power of two that holds it; requests of at most
      half the smallest block find no level. */
  lemma LevelOfRequest(g: Geometry, size: nat, e: nat, r: int)
    requires g.Ok() && 0 < size <= g.BlockSize(0) && size <= Pow2(e) && (Pow2(e) == 1 || Pow2(e) < 2 * size)
    requires r >= 0 ==> r < g.levels && g.BlockSize(r) == Pow2(e)
    requires r < 0 ==> forall l: nat :: l < g.levels ==> g.BlockSize(l) != Pow2(e)
    ensures r >= 0 ==> FitsLevel(g, size, r)
    ensures r < 0 <==> 2 * size <= g.BlockSize(g.levels - 1)
  {
    var s := g.bits - (g.levels - 1);
    if g.bits < e { Pow2Mono(g.bits + 1, e); }
    assert e <= g.bits;
    HalfOrLess(size, e, s);
    if e < s {
      if r >= 0 { Pow2Same(g.bits - r, e); }
    } else {
      assert g.BlockSize(g.bits - e) == Pow2(e);
    }
  }

  /** The least power of two that holds `size` is below another one exactly when `size` is at most half
      of that. */
  lemma HalfOrLess(size: nat, e: nat, s: nat)
    requires 0 < size <= Pow2(e) && (Pow2(e) == 1 || Pow2(e) < 2 * size)
    ensures e < s <==> 2 * size <= Pow2(s)
  {
    if e < s { Pow2Mono(e + 1, s); } else { Pow2Mono(s, e); }
  }

  // ----- the heap

  /** The level whose blocks are the smallest that hold `size` bytes. */
  ghost predicate FitsLevel(g: Geometry, size: nat, k: nat) {
    k < g.levels && k <= g.bits && size <= g.BlockSize(k) < 2 * size
  }

  // ----- the configuration

  const MAX_ALLOWED_LEVEL := 32

  /** The heap that `kheapInitBuddy` sets up: its size is the least power of two that is not below the
      configured one, and the block sizes run from the biggest to the smallest configured page. */
  ghost predicate Configures(g: Geometry, heap: nat, biggest: nat, smallest: nat) {
    && 0 < g.levels <= g.bits + 1 && g.levels < MAX_ALLOWED_LEVEL
    && g.BlockSize(0) == biggest && g.BlockSize(g.levels - 1) == smallest
    && exists e: nat :: RoundedTo(g, heap, e)
  }

  ghost predicate RoundedTo(g: Geometry, heap: nat, e: nat) {
    LeastPower(heap, e) && g.bits <= e && g.roots == Pow2(e - g.bits) && g.HeapSize() == Pow2(e)
  }

  ghost predicate LeastPower(n: nat, e: nat) {
    n <= Pow2(e) && (e == 0 || Pow2(e) < 2 * n)
  }

  lemma {:induction false} Pow2Sum(a: nat, b: nat)
    ensures Times(Pow2(a), Pow2(b)) == Pow2(a + b)
  {
    if a == 0 {
      TimesIsProduct(1, Pow2(b));
    } else {
      Pow2Sum(a - 1, b);
      TimesDouble(Pow2(a - 1), Pow2(b));
      TimesIsProduct(Pow2(a - 1), 2 * Pow2(b));
      TimesIsProduct(Pow2(a - 1), Pow2(b));
    }
  }

  /** After `l` halvings the page of `2^b` bytes has the size `smallest`. */
  ghost predicate HalvesTo(b: nat, l: nat, smallest: nat) {
    l <= b && Pow2(b - l) == smallest
  }

  function Halved(b: nat, k: nat): nat {
    if k <= b then Pow2(b - k) else 0
  }

  lemma HalvedOnce(b: nat, k: nat)
    ensures Halved(b, k) / 2 == Halved(b, k + 1)
  {
  }

  /** `detectMaxLvl`: how often the biggest page must be halved to get the smallest one, plus one. */
  method DetectMaxLvl(maxPage: nat, smallest: nat, ghost b: nat) returns (ret: nat)
    requires maxPage == Pow2(b) && smallest > 0
    ensures ret > 0 ==> ret < MAX_ALLOWED_LEVEL && HalvesTo(b, ret - 1, smallest)
    ensures ret == 0 ==> forall l: nat {:trigger HalvesTo(b, l, smallest)} :: l + 1 < MAX_ALLOWED_LEVEL ==> !HalvesTo(b, l, smallest)
  {
    var curPage := maxPage;
    for i := 1 to MAX_ALLOWED_LEVEL
      invariant curPage == Halved(b, i - 1)
      invariant forall l: nat {:trigger HalvesTo(b, l, smallest)} :: l < i - 1 ==> !HalvesTo(b, l, smallest)
    {
      if curPage == smallest { return i; }
      HalvedOnce(b, i - 1);
      curPage := curPage / 2;
    }
    return 0;
  }

  /** The computation of `kheapInitBuddy`. The biggest page is a power of two that is not above the
      rounded heap; otherwise its first loop would not end. */
  method InitGeometry(heap: nat, biggest: nat, smallest: nat, ghost b: nat) returns (r: int, g: Geometry)
    requires biggest == Pow2(b) && biggest < 2 * heap && smallest > 0
    ensures r == SUCCESS || r == -ENMEM
    ensures r == SUCCESS ==> Configures(g, heap, biggest, smallest) && (g.Ok() <==> g.HeapSize() > biggest)
    ensures r == SUCCESS <==> exists l: nat {:trigger HalvesTo(b, l, smallest)} :: l + 1 < MAX_ALLOWED_LEVEL && HalvesTo(b, l, smallest)
  {
    var heapSize; ghost var e;
    heapSize, e := ToNextLvl(heap);
    if e < b { Pow2Mono(e + 1, b); }
    var maxPage := heapSize;
    ghost var m := e;
    while maxPage != biggest
      invariant b <= m <= e && maxPage == Pow2(m)
      decreases m
    {
      Pow2Same(m, b);
      maxPage := maxPage / 2;
      m := m - 1;
    }
    Pow2Same(m, b);
    var maxLvl := DetectMaxLvl(maxPage, smallest, b);
    var minPage := maxPage;
    for i := 1 to (if maxLvl == 0 then 1 else maxLvl)
      invariant minPage == Halved(b, i - 1)
    {
      HalvedOnce(b, i - 1);
      minPage := minPage / 2;
    }
    var bits := Log2(biggest, b);
    g := Geometry(Quotient(heapSize, biggest), maxLvl, bits);
    assert maxLvl == 0 ==> !HalvesTo(b, 0, smallest);
    if minPage != smallest { return -ENMEM, g; }
    RootsOf(heapSize, e, biggest, b);
    assert RoundedTo(g, heap, e);
    return SUCCESS, g;
  }

  method Log2(n: nat, ghost b: nat) returns (l: nat)
    requires n == Pow2(b)
    ensures l == b
  {
    l := 0;
    var rest := n;
    while rest > 1
      invariant l <= b && rest == Pow2(b - l)
    {
      rest := rest / 2;
      l := l + 1;
    }
  }

  lemma RootsOf(heapSize: nat, e: nat, biggest: nat, b: nat)
    requires heapSize == Pow2(e) && biggest == Pow2(b) && b <= e
    ensures Quotient(heapSize, biggest) == Pow2(e - b) && Times(Pow2(e - b), biggest) == heapSize
    ensures Pow2(e - b) % 2 == 0 <==> heapSize > biggest
  {
    Pow2Sum(e - b, b);
    var q := Quotient(heapSize, biggest);
    if q < Pow2(e - b) { TimesApart(q, Pow2(e - b), biggest); }
    if Pow2(e - b) < q { TimesApart(Pow2(e - b), q, biggest); }
    if b < e { Pow2Grows(b, e); }
  }

  /** The configured heap: 100 MiB are rounded up to 128 MiB, in blocks of 128 KiB down to 1 KiB on
      8 levels. So the buddy heap reaches 28 MiB behind the end that the configuration announces. */
  const CONFIGURED := Geometry(1024, 8, 17)

  lemma ConfiguredPowers()
    ensures Pow2(10) == 0x400 && Pow2(17) == 0x20000 && Pow2(26) == 0x400_0000 && Pow2(27) == 0x800_0000 && Pow2(28) == 0x1000_0000
  {
    assert Pow2(5) == 32;
    assert Pow2(10) == 0x400;
    assert Pow2(13) == 8 * Pow2(10);
    assert Pow2(17) == 16 * Pow2(13);
    assert Pow2(22) == 32 * Pow2(17);
    assert Pow2(26) == 16 * Pow2(22);
  }

  lemma OneLeastPower(n: nat, d: nat, e: nat)
    requires LeastPower(n, d) && LeastPower(n, e)
    ensures d == e
  {
    if d < e { Pow2Mono(d + 1, e); }
    if e < d { Pow2Mono(e + 1, d); }
  }

  /** A configuration determines the heap. */
  lemma OneConfiguration(g: Geometry, h: Geometry, heap: nat, biggest: nat, smallest: nat)
    requires Configures(g, heap, biggest, smallest) && Configures(h, heap, biggest, smallest)
    ensures g == h
  {
    Pow2Same(g.bits, h.bits);
    Pow2Same(g.bits - (g.levels - 1), h.bits - (h.levels - 1));
    var d: nat :| RoundedTo(g, heap, d);
    var e: nat :| RoundedTo(h, heap, e);
    OneRounding(g, h, heap, d, e);
  }

  lemma OneRounding(g: Geometry, h: Geometry, heap: nat, d: nat, e: nat)
    requires RoundedTo(g, heap, d) && RoundedTo(h, heap, e) && g.bits == h.bits
    ensures g.roots == h.roots
  {
    OneLeastPower(heap, d, e);
  }

  lemma ConfiguredHeap()
    ensures Configures(CONFIGURED, 100 * 0x100000, 0x20000, 0x400)
    ensures CONFIGURED.Ok() && CONFIGURED.HeapSize() == 128 * 0x100000
  {
    ConfiguredPowers();
    TimesIsProduct(1024, Pow2(17));
    assert RoundedTo(CONFIGURED, 100 * 0x100000, 27);
  }

  lemma BlocksShrink(g: Geometry, k: nat, l: nat)
    requires k <= l <= g.bits
    ensures g.BlockSize(l) <= g.BlockSize(k)
    ensures k < l ==> 2 * g.BlockSize(l) <= g.BlockSize(k)
  {
    Pow2Mono(g.bits - l, g.bits - k);
    if k < l { Pow2Mono(g.bits - l + 1, g.bits - k); }
  }

  lemma OneFittingLevel(g: Geometry, size: nat, k: nat)
    requires FitsLevel(g, size, k)
    ensures forall l: nat :: FitsLevel(g, size, l) ==> l == k
  {
    forall l: nat | FitsLevel(g, size, l) ensures l == k {
      if l < k { BlocksShrink(g, l, k); }
      if k < l { BlocksShrink(g, k, l); }
    }
  }

  /** The requests that some level fits. */
  lemma FitsSomeLevel(g: Geometry, size: nat)
    requires g.Ok()
    ensures (exists k: nat :: FitsLevel(g, size, k)) <==> 0 < size <= g.BlockSize(0) && 2 * size > g.BlockSize(g.levels - 1)
  {
    if k: nat :| FitsLevel(g, size, k) {
      BlocksShrink(g, 0, k);
      BlocksShrink(g, k, g.levels - 1);
    }
    if 0 < size <= g.BlockSize(0) && 2 * size > g.BlockSize(g.levels - 1) {
      var k := FitFrom(g, size, g.levels - 1);
    }
  }

  lemma {:induction false} FitFrom(g: Geometry, size: nat, l: nat) returns (k: nat)
    requires g.Ok() && l < g.levels && 0 < size <= g.BlockSize(0) && 2 * size > g.BlockSize(l)
    ensures FitsLevel(g, size, k)
    decreases l
  {
    if size <= g.BlockSize(l) {
      k := l;
    } else {
      assert g.BlockSize(l - 1) == 2 * g.BlockSize(l);
      k := FitFrom(g, size, l - 1);
    }
  }

  class BuddyHeap {
    const g: Geometry
    const heapAddress: nat
    /** The block tables, one level behind the other, and the zeroed memory behind them. */
    const entries: array<Flags>

    ghost function View(): Table
      reads entries
    {
      imap n: Node | g.IsNode(n) :: if g.Slot(n) < entries.Length then entries[g.Slot(n)] else BLANK
    }

    ghost predicate InPlace()
      reads entries
    {
      g.Ok() && heapAddress > 0 && entries.Length == g.Base(g.levels) + 1 && entries[g.Base(g.levels)] == BLANK
    }

    ghost predicate Valid()
      reads entries
    {
      InPlace() && Sound(g, View())
    }

    /** `kheapInitBuddy`: one free block per entry of level 0. */
    constructor (g: Geometry, heapAddress: nat)
      requires g.Ok() && heapAddress > 0
      ensures Valid() && fresh(entries) && this.g == g && this.heapAddress == heapAddress
      ensures forall n: Node :: !Live(g, View(), n)
    {
      this.g := g;
      this.heapAddress := heapAddress;
      var table := new Flags[g.Base(g.levels) + 1](_ => BLANK);
      g.BaseGrows(0, g.levels);
      for i := 0 to g.roots
        invariant forall j :: 0 <= j < table.Length ==> table[j] == if j < i then FREE else BLANK
      {
        table[i] := FREE;
      }
      entries := table;
      new;
      InitialTable(g, View()) by {
        forall n: Node | g.IsNode(n) ensures View()[n] == if n.lvl == 0 then FREE else BLANK {
          g.SlotInTable(n);
          if n.lvl > 0 { g.BaseGrows(0, n.lvl); }
        }
      }
    }

    // ----- single entries

    function Entry(n: Node): (f: Flags)
      requires InPlace() && g.IsNode(n)
      reads entries
      ensures f == View()[n]
    {
      g.SlotInTable(n);
      entries[g.Slot(n)]
    }

    method SetEntry(n: Node, f: Flags)
      requires InPlace() && g.IsNode(n)
      modifies entries
      ensures InPlace() && View() == old(View())[n := f]
    {
      g.SlotInTable(n);
      entries[g.Slot(n)] := f;
      forall m: Node | g.IsNode(m) ensures View()[m] == old(View())[n := f][m] {
        g.SlotInTable(m);
        if m != n { g.SlotInjective(m, n); }
      }
    }

    /** `addEntry`: the entry becomes free. */
    method AddEntry(n: Node)
      requires InPlace() && g.IsNode(n)
      modifies entries
      ensures InPlace() && View() == old(View())[n := FREE]
    {
      SetEntry(n, Entry(n).(free := true, splitUp := false, alloc := false));
    }

    /** `removeEntry`: a free entry loses its flag and gets the one of the removal type. Anything
        else is an error. */
    method RemoveEntry(n: Node, kind: RemoveType) returns (r: int)
      requires InPlace() && g.IsNode(n)
      modifies entries
      ensures InPlace()
      ensures r == if old(View())[n].free then SUCCESS else -EIARG
      ensures View() == if r != SUCCESS then old(View()) else old(View())[n := Removed(old(View())[n], kind)]
    {
      var f := Entry(n);
      if !f.free { return -EIARG; }
      SetEntry(n, Removed(f, kind));
      return SUCCESS;
    }

    // ----- allocation

    predicate HasFree(l: nat)
      requires InPlace() && l < g.levels
      reads entries
    {
      exists i :: 0 <= i < g.Count(l) && FreeAt(l, i)
    }

    predicate FreeAt(l: nat, i: nat)
      reads entries
    {
      g.Base(l) + i < entries.Length && entries[g.Base(l) + i].free
    }

    lemma HasFreeIff(l: nat)
      requires InPlace() && l < g.levels
      ensures HasFree(l) <==> !NoFreeAt(g, View(), l)
    {
      if HasFree(l) {
        var i :| 0 <= i < g.Count(l) && FreeAt(l, i);
        assert g.IsNode(Node(l, i)) && View()[Node(l, i)].free;
      }
      forall n: Node | g.IsNode(n) && n.lvl == l && View()[n].free ensures HasFree(l) {
        g.SlotInTable(n);
        assert FreeAt(l, n.idx);
      }
    }

    /** `getFreeEntry`: some free entry of the level. Which one depends on the order of the list. */
    method GetFreeEntry(l: nat) returns (n: Node)
      requires InPlace() && l < g.levels && HasFree(l)
      ensures g.IsNode(n) && n.lvl == l && View()[n].free
    {
      var i :| 0 <= i < g.Count(l) && FreeAt(l, i);
      n := Node(l, i);
    }

    /** `splitEntryUp`. */
    method SplitEntryUp(l: nat) returns (left: Node, ghost n: Node)
      requires InPlace() && Shaped(g, View()) && l + 1 < g.levels && HasFree(l)
      modifies entries
      ensures InPlace() && g.IsNode(n) && n.lvl == l && old(View())[n].free
      ensures View() == SplitTable(g, old(View()), n) && left == g.Child(n, false)
    {
      var entry := GetFreeEntry(l);
      n := entry;
      assert OneFlag(View()[n]);
      g.ChildIsNode(entry, false);
      g.ChildIsNode(entry, true);
      var ignored := RemoveEntry(entry, RemoveSplit);
      left := g.Child(entry, false);
      AddEntry(left);
      AddEntry(g.Child(entry, true));
    }

    /** `splitAndReturn`, and the removal that takes its result. */
    method SplitAndTake(startLvl: nat, endLvl: nat) returns (taken: Node)
      requires Valid() && startLvl < endLvl < g.levels && HasFree(startLvl)
      requires forall l :: startLvl < l <= endLvl ==> NoFreeAt(g, View(), l)
      modifies entries
      ensures Valid() && LiveAdded(g, old(View()), View(), taken) && taken.lvl == endLvl
    {
      ghost var t0, p := View(), Node(0, 0);
      HasFreeIff(startLvl);
      taken := Node(0, 0);
      var i := startLvl;
      while i < endLvl
        invariant startLvl <= i <= endLvl && InPlace() && Splitting(g, t0, View(), startLvl, i, endLvl, p)
        invariant i > startLvl ==> taken == g.Child(p, false)
      {
        HasFreeIff(i);
        if i > startLvl { g.ChildIsNode(p, false); }
        ghost var t := View();
        ghost var n;
        taken, n := SplitEntryUp(i);
        SplitStep(g, t0, t, startLvl, i, endLvl, p, n);
        p := n;
        i := i + 1;
      }
      g.ChildIsNode(p, false);
      assert OneFlag(View()[taken]);
      TakeAfterSplits(g, t0, View(), startLvl, endLvl, p, taken);
      var ignored := RemoveEntry(taken, RemoveAllocated);
    }

    /** The search for a level with a free entry, from the wanted one towards bigger blocks. */
    method SearchFreeLevel(searchLvl: int) returns (freeLvl: int)
      requires InPlace() && searchLvl < g.levels
      ensures freeLvl <= searchLvl && (freeLvl >= 0 ==> HasFree(freeLvl))
      ensures forall l: nat :: freeLvl < l <= searchLvl ==> NoFreeAt(g, View(), l)
      ensures searchLvl >= 0 && freeLvl < 0 ==> !FreeUpTo(g, View(), searchLvl)
    {
      freeLvl := searchLvl;
      while freeLvl >= 0
        invariant freeLvl <= searchLvl
        invariant forall l: nat :: freeLvl < l <= searchLvl ==> NoFreeAt(g, View(), l)
        decreases freeLvl + 1
      {
        HasFreeIff(freeLvl);
        if HasFree(freeLvl) { return; }
        freeLvl := freeLvl - 1;
      }
      forall f: Node | g.IsNode(f) && f.lvl <= searchLvl ensures !View()[f].free {
        assert NoFreeAt(g, View(), f.lvl);
      }
    }

    /** `kzallocBuddy`. Null exactly when no level fits the request (it is empty, bigger than the
        biggest block or at most half the smallest one) or no block of that level or above is free. */
    method KzallocBuddy(size: nat) returns (address: nat, ghost taken: Node)
      requires Valid()
      modifies entries
      ensures Valid()
      ensures address == 0 ==> View() == old(View())
      ensures address != 0 ==>
                && FitsLevel(g, size, taken.lvl) && LiveAdded(g, old(View()), View(), taken)
                && address == heapAddress + Start(g, taken)
      ensures (exists k: nat :: FitsLevel(g, size, k)) <==> 0 < size <= g.BlockSize(0) && 2 * size > g.BlockSize(g.levels - 1)
      ensures address == 0 <==> forall k: nat :: FitsLevel(g, size, k) ==> !FreeUpTo(g, old(View()), k)
    {
      taken := Node(0, 0);
      FitsSomeLevel(g, size);
      if size == 0 || size > g.BlockSize(0) { return 0, taken; }
      var requestedBlock; ghost var e;
      requestedBlock, e := ToNextLvl(size);
      var searchLvl := FindLvlForBlock(g, requestedBlock);
      LevelOfRequest(g, size, e, searchLvl);

      var freeLvl := SearchFreeLevel(searchLvl);
      if searchLvl >= 0 { OneFittingLevel(g, size, searchLvl); }
      if freeLvl < 0 {
        return 0, taken;
      }
      assert FreeUpTo(g, View(), searchLvl) by { HasFreeIff(freeLvl); }

      var takeEntry;
      if searchLvl != freeLvl {
        takeEntry := SplitAndTake(freeLvl, searchLvl);
      } else {
        takeEntry := GetFreeEntry(searchLvl);
        assert OneFlag(View()[takeEntry]);
        TakeKeeps(g, View(), takeEntry, {});
        var ignored := RemoveEntry(takeEntry, RemoveAllocated);
      }
      return heapAddress + Start(g, takeEntry), takeEntry;
    }

    // ----- release

    /** `heapAddressToEntry`: the first level at whose entry the ALLOCATED flag stands. For the address
        just behind the heap the index is one too big, so it names the first entry of the next
        table. */
    method HeapAddressToEntry(offset: nat) returns (found: bool, n: Node)
      requires Valid() && offset <= g.HeapSize()
      ensures found ==> Live(g, View(), n) && Names(g, offset, n)
      ensures !found ==> forall m: Node {:trigger Live(g, View(), m)} :: Live(g, View(), m) ==> !Names(g, offset, m)
    {
      var curLvl, curPage := 0, g.BlockSize(0);
      while curLvl < g.levels
        invariant 0 <= curLvl <= g.levels && (curLvl < g.levels ==> curPage == g.BlockSize(curLvl))
        invariant forall m: Node {:trigger Live(g, View(), m)} :: Live(g, View(), m) && m.lvl < curLvl ==> !Names(g, offset, m)
        invariant offset == g.HeapSize() ==> forall m: Node {:trigger Live(g, View(), m)} :: Live(g, View(), m) && m.lvl == curLvl ==> !Names(g, offset, m)
      {
        var lvlTableIndex := Quotient(offset, curPage);
        ProbeInTable(g, curLvl, offset);
        n := Probe(g, curLvl, offset);
        ProbeEntry(curLvl, offset);
        if entries[g.Base(curLvl) + lvlTableIndex].alloc {
          return true, n;
        }
        forall m: Node | Live(g, View(), m) && Names(g, offset, m) ensures m.lvl != n.lvl {
          if m.lvl == n.lvl { NamedOnce(g, curLvl, offset, m); }
        }
        curLvl := curLvl + 1;
        curPage := curPage / 2;
      }
      return false, Node(0, 0);
    }

    /** What stands at the place the search looks at. */
    lemma ProbeEntry(l: nat, offset: nat)
      requires Valid() && l < g.levels && offset <= g.HeapSize()
      requires g.Base(l) + Quotient(offset, g.BlockSize(l)) < entries.Length
      ensures var n := Probe(g, l, offset);
              && (entries[g.Base(l) + Quotient(offset, g.BlockSize(l))].alloc <==> Live(g, View(), n))
              && (g.IsNode(n) ==> Names(g, offset, n))
    {
      ProbeNames(g, l, offset);
      EntryAtSlot(Probe(g, l, offset));
    }

    /** A live entry is one whose place holds the ALLOCATED flag; behind the last table stands none. */
    lemma EntryAtSlot(n: Node)
      requires InPlace() && (g.IsNode(n) || n == Node(g.levels, 0))
      ensures g.Slot(n) < entries.Length && (entries[g.Slot(n)].alloc <==> Live(g, View(), n))
    {
      if g.IsNode(n) { g.SlotInTable(n); }
    }

    /** `merge`, upward for as long as the buddy is free too. */
    method Merge(block1: Node, block2: Node)
      requires InPlace() && g.IsNode(block1) && block2 == g.Buddy(block1)
      requires if block1.lvl == 0 then Sound(g, View()) else Mergeable(g, View(), block1)
      modifies entries
      ensures Valid()
      ensures if block1.lvl > 0 && old(View())[block1].alloc then LiveAdded(g, View(), old(View()), block1)
              else SameLive(g, old(View()), View())
      decreases block1.lvl
    {
      if block1.lvl == 0 { return; }
      if block1.lvl != block2.lvl { return; }
      ghost var t := View();
      MergeKeeps(g, t, block1);
      var newBlock := Join(block1, block2);
      g.BuddyIsNode(newBlock);
      var newBuddy := g.Buddy(newBlock);
      JoinedBuddy(g, t, block1);
      if Entry(newBuddy).free {
        Merge(newBlock, newBuddy);
      }
    }

    /** Removing and clearing two buddies and adding their parent. */
    method Join(block1: Node, block2: Node) returns (newBlock: Node)
      requires InPlace() && g.IsNode(block1) && block1.lvl > 0 && block2 == g.Buddy(block1)
      modifies entries
      ensures InPlace() && newBlock == g.Parent(block1) && g.IsNode(newBlock)
      ensures View() == MergeTable(g, old(View()), block1)
    {
      g.BuddyIsNode(block1);
      g.ParentIsNode(block1);
      RemoveBoth(block1, block2);
      ghost var t := View();
      SetEntry(block1, BLANK);
      SetEntry(block2, BLANK);
      newBlock := g.Parent(block1);
      AddEntry(newBlock);
      ClearedAnyway(old(View()), t, block1, block2);
    }

    /** Both buddies leave the list of their level, if they are on it. */
    method RemoveBoth(block1: Node, block2: Node)
      requires InPlace() && g.IsNode(block1) && g.IsNode(block2)
      modifies entries
      ensures InPlace() && ButFor(old(View()), View(), block1, block2)
    {
      var ignored := RemoveEntry(block1, RemoveMerge);
      ignored := RemoveEntry(block2, RemoveMerge);
    }

    /** `kzfreeBuddy`. It succeeds for an address in a live block, and also, by one byte too many in
        its range check, for the address behind the heap when the block at the start of the heap is
        live and not of the biggest size. */
    method KzfreeBuddy(pointer: nat) returns (r: int, ghost freed: Node)
      requires Valid()
      modifies entries
      ensures Valid()
      ensures r == SUCCESS || r == -EIARG
      ensures r == SUCCESS ==> FreedBy(pointer, old(View()), freed) && LiveAdded(g, View(), old(View()), freed)
      ensures r != SUCCESS ==> View() == old(View()) && forall m: Node :: !FreedBy(pointer, old(View()), m)
    {
      freed := Node(0, 0);
      if pointer < heapAddress || pointer > heapAddress + g.HeapSize() { return -EIARG, freed; }
      var found, entry := HeapAddressToEntry(pointer - heapAddress);
      if !found { return -EIARG, freed; }
      freed := entry;
      ReleaseKeeps(g, View(), entry);
      g.BuddyIsNode(entry);
      var buddy := g.Buddy(entry);
      assert OneFlag(View()[buddy]) && OneFlag(View()[entry]);
      if buddy.lvl > 0 && Entry(buddy).free {
        assert MergedExcept(g, View(), {g.Parent(entry)});
        Merge(entry, buddy);
      } else {
        AddEntry(entry);
      }
      r := SUCCESS;
    }

    /** The live block that `kzfreeBuddy` takes `pointer` to mean. */
    ghost predicate FreedBy(pointer: nat, t: Table, n: Node) {
      pointer >= heapAddress && Live(g, t, n) && Names(g, pointer - heapAddress, n)
    }
  }

  /** The buddy of a merged block is as it was. */
  lemma JoinedBuddy(g: Geometry, t: Table, n: Node)
    requires Mergeable(g, t, n)
    ensures var u, p := MergeTable(g, t, n), g.Parent(n);
            && g.IsNode(g.Buddy(p)) && g.Buddy(p) in u && u[g.Buddy(p)] == t[g.Buddy(p)] && u[p] == FREE
            && (u[g.Buddy(p)].free ==> u[g.Buddy(p)] == FREE)
  {
    g.ParentIsNode(n);
    g.BuddyIsNode(g.Parent(n));
    assert OneFlag(t[g.Buddy(g.Parent(n))]);
  }

  /** The entry that `heapAddressToEntry` looks at on a level: behind the last entry of a table comes
      the first one of the next. */
  function Probe(g: Geometry, l: nat, offset: nat): Node
    requires l <= g.bits
  {
    if NodeAt(g, l, offset).idx < g.Count(l) then NodeAt(g, l, offset) else Node(l + 1, 0)
  }

  /** The entries that an offset names: blocks around it, and for the offset behind the heap the
      first entries above level 0. */
  ghost predicate Names(g: Geometry, offset: nat, n: Node) {
    g.Ok() && g.IsNode(n) && if offset < g.HeapSize() then Covers(g, n, offset) else offset == g.HeapSize() && n.idx == 0 < n.lvl
  }

  /** The place that the search looks at is the one of the entry `Probe`. */
  lemma ProbeNames(g: Geometry, l: nat, offset: nat)
    requires g.Ok() && l < g.levels && offset <= g.HeapSize()
    ensures var n := Probe(g, l, offset);
            && g.Base(l) + Quotient(offset, g.BlockSize(l)) == g.Slot(n)
            && ((g.IsNode(n) && Names(g, offset, n)) || n == Node(g.levels, 0))
  {
    ProbeInTable(g, l, offset);
    if l + 1 < g.levels { g.CountEven(l + 1); }
  }

  lemma NamedOnce(g: Geometry, l: nat, offset: nat, m: Node)
    requires l < g.levels && Names(g, offset, m) && m.lvl == Probe(g, l, offset).lvl
    ensures m == Probe(g, l, offset)
  {
    ProbeInTable(g, l, offset);
    if offset < g.HeapSize() { OnlyOneCovers(g, m, NodeAt(g, l, offset), offset); }
  }

  lemma ProbeInTable(g: Geometry, l: nat, offset: nat)
    requires g.Ok() && l < g.levels && offset <= g.HeapSize()
    ensures Quotient(offset, g.BlockSize(l)) <= g.Count(l)
    ensures offset < g.HeapSize() ==> g.IsNode(NodeAt(g, l, offset)) && Covers(g, NodeAt(g, l, offset), offset)
    ensures offset == g.HeapSize() ==> Quotient(offset, g.BlockSize(l)) == g.Count(l)
    ensures g.Base(l) + Quotient(offset, g.BlockSize(l)) <= g.Base(g.levels)
  {
    LevelsCoverHeap(g, l);
    var q := Quotient(offset, g.BlockSize(l));
    if g.Count(l) < q { TimesApart(g.Count(l), q, g.BlockSize(l)); }
    if q < g.Count(l) { TimesApart(q, g.Count(l), g.BlockSize(l)); }
    if offset < g.HeapSize() { NodeAtCovers(g, l, offset); }
    g.BaseGrows(l, g.levels);
  }

  /** `t` and `u` differ at most at `a` and `b`. */
  ghost predicate ButFor(t: Table, u: Table, a: Node, b: Node) {
    forall m: Node :: (m in t <==> m in u) && (m in t && m != a && m != b ==> u[m] == t[m])
  }

  lemma ClearedAnyway(t: Table, u: Table, a: Node, b: Node)
    requires ButFor(t, u, a, b)
    ensures u[a := BLANK][b := BLANK] == t[a := BLANK][b := BLANK]
  {
  }

  datatype RemoveType = RemoveSplit | RemoveAllocated | RemoveMerge

  function Removed(f: Flags, kind: RemoveType): Flags {
    match kind
    case RemoveSplit => f.(free := false, splitUp := true)
    case RemoveAllocated => f.(free := false, alloc := true)
    case RemoveMerge => f.(free := false)
  }

  lemma InitialTable(g: Geometry, t: Table)
    requires g.Ok() && forall n: Node :: g.IsNode(n) <==> n in t
    requires forall n: Node :: g.IsNode(n) ==> t[n] == if n.lvl == 0 then FREE else BLANK
    ensures Sound(g, t) && forall n: Node :: !Live(g, t, n)
  {
    forall n: Node | g.IsNode(n) ensures LinkOk(g, t, n) {
      if n.lvl > 0 { g.ParentIsNode(n); }
    }
  }

  // ----- over runs

  /** The address of a live block names that block and no other live one. */
  lemma AddressNames(g: Geometry, t: Table, n: Node, m: Node)
    requires Sound(g, t) && Live(g, t, n) && Live(g, t, m)
    ensures Names(g, Start(g, n), m) <==> m == n
  {
    LevelsCoverHeap(g, n.lvl);
    TimesApart(n.idx, g.Count(n.lvl), g.BlockSize(n.lvl));
    if Names(g, Start(g, n), m) && m != n {
      assert Covers(g, m, Start(g, n)) && Covers(g, n, Start(g, n));
      OverlapIsSharedByte(g, m, n);
      LiveApart(g, t, m, n);
    }
  }

  /** Releasing, by its address, a block that was just taken succeeds and restores every flag. */
  lemma FreeUndoesAlloc(g: Geometry, before: Table, between: Table, after: Table, taken: Node, freed: Node)
    requires Sound(g, before) && Sound(g, between) && Sound(g, after) && LiveAdded(g, before, between, taken)
    ensures Live(g, between, taken) && Names(g, Start(g, taken), taken)
    ensures Live(g, between, freed) && Names(g, Start(g, taken), freed) && LiveAdded(g, after, between, freed) ==>
              freed == taken && after == before
  {
    AddressNames(g, between, taken, taken);
    if Live(g, between, freed) && Names(g, Start(g, taken), freed) && LiveAdded(g, after, between, freed) {
      AddressNames(g, between, taken, freed);
      SameAfter(g, before, between, after, taken);
    }
  }

  lemma SameAfter(g: Geometry, before: Table, between: Table, after: Table, n: Node)
    requires Sound(g, before) && Sound(g, after)
    requires LiveAdded(g, before, between, n) && LiveAdded(g, after, between, n)
    ensures after == before
  {
    forall m: Node ensures Live(g, before, m) <==> Live(g, after, m) {
      assert Live(g, between, m) <==> Live(g, before, m) || m == n;
      assert Live(g, between, m) <==> Live(g, after, m) || m == n;
    }
    SameLiveSameTable(g, before, after);
  }

  /** Taking back a block that was just released restores every flag, wherever merging led. */
  lemma AllocUndoesFree(g: Geometry, before: Table, between: Table, after: Table, n: Node)
    requires Sound(g, before) && Sound(g, after)
    requires LiveAdded(g, between, before, n) && LiveAdded(g, between, after, n)
    ensures after == before
  {
    forall m: Node ensures Live(g, before, m) <==> Live(g, after, m) {
      assert Live(g, before, m) <==> Live(g, between, m) || m == n;
      assert Live(g, after, m) <==> Live(g, between, m) || m == n;
    }
    SameLiveSameTable(g, before, after);
  }

  /** When every block is released, all memory has merged back into free blocks of the biggest size. */
  lemma AllReleased(g: Geometry, t: Table, n: Node)
    requires Sound(g, t) && g.IsNode(n) && forall m: Node :: !Live(g, t, m)
    ensures n in t && t[n] == if n.lvl == 0 then FREE else BLANK
  {
    FlagsFromLive(g, t, n);
    assert !Live(g, t, n);
  }

  /** Where the search for an address goes wrong: for every address but the one behind the heap it
      finds a block exactly when a live one covers the address. */
  lemma NamesExactly(g: Geometry, t: Table, offset: nat)
    requires Sound(g, t) && offset <= g.HeapSize()
    ensures (forall n: Node :: Live(g, t, n) ==> (Names(g, offset, n) <==> Covers(g, n, offset)))
            <==> offset < g.HeapSize() || !(exists n: Node :: Live(g, t, n) && n.idx == 0 < n.lvl)
  {
    if offset == g.HeapSize() {
      forall n: Node | Live(g, t, n) ensures !Covers(g, n, offset) {
        LevelsCoverHeap(g, n.lvl);
        TimesSum(n.idx, 1, g.BlockSize(n.lvl));
        TimesIsProduct(1, g.BlockSize(n.lvl));
        if n.idx + 1 < g.Count(n.lvl) { TimesApart(n.idx + 1, g.Count(n.lvl), g.BlockSize(n.lvl)); }
      }
    }
  }

  /** Every heap of more than one level can get there: once its first block of level 1 is taken, the
      address behind the heap names that block. */
  lemma BehindTheHeap(g: Geometry) returns (t: Table)
    requires g.Ok() && g.levels > 1
    ensures Sound(g, t) && Live(g, t, Node(1, 0))
    ensures Names(g, g.HeapSize(), Node(1, 0)) && !Covers(g, Node(1, 0), g.HeapSize())
  {
    var root, block := Node(0, 0), Node(1, 0);
    t := imap n: Node | g.IsNode(n) :: if n.lvl == 0 then FREE else BLANK;
    InitialTable(g, t);
    SplitKeeps(g, t, root, {});
    t := SplitTable(g, t, root);
    TakeKeeps(g, t, block, {root});
    t := t[block := ALLOCATED];
    NamesExactly(g, t, g.HeapSize());
    LevelsCoverHeap(g, 1);
    g.CountEven(1);
    TimesApart(1, g.Count(1), g.BlockSize(1));
  }
}
