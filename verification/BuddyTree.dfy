/** The block tables of `kheap_buddy.c` as a forest of complete binary trees. */
module BuddyTree {
  import opened Bytes

  /** The flag bits FREE, SPLITUP and ALLOCATED of a block entry. */
  datatype Flags = Flags(free: bool, splitUp: bool, alloc: bool)

  const BLANK := Flags(false, false, false)
  const FREE := Flags(true, false, false)
  const SPLITUP := Flags(false, true, false)
  const ALLOCATED := Flags(false, false, true)

  /** An entry: the level of its table and its index there. */
  datatype Node = Node(lvl: nat, idx: nat)

  type Table = imap<Node, Flags>

  function Pow2(e: nat): (p: nat)
    ensures p > 0
  {
    if e == 0 then 1 else 2 * Pow2(e - 1)
  }

  lemma {:induction false} Pow2Grows(a: nat, b: nat)
    requires a < b
    ensures 0 < Pow2(a) < Pow2(b)
  {
    if a + 1 < b { Pow2Grows(a, b - 1); } else if a > 0 { Pow2Grows(a - 1, a); }
  }

  lemma Pow2Mono(a: nat, b: nat)
    requires a <= b
    ensures Pow2(a) <= Pow2(b)
  {
    if a < b { Pow2Grows(a, b); }
  }

  /** `roots` blocks of `2^bits` bytes on level 0, halved level by level. */
  datatype Geometry = Geometry(roots: nat, levels: nat, bits: nat)
  {
    ghost predicate Ok() {
      roots > 0 && roots % 2 == 0 && 0 < levels <= bits + 1
    }

    /** Entries of a level. */
    function Count(l: nat): nat {
      if l == 0 then roots else 2 * Count(l - 1)
    }

    /** Entries of all lower levels: where the table of a level starts. */
    function Base(l: nat): nat {
      if l == 0 then 0 else Base(l - 1) + Count(l - 1)
    }

    function BlockSize(l: nat): nat
      requires l <= bits
    {
      Pow2(bits - l)
    }

    function HeapSize(): nat {
      Times(roots, Pow2(bits))
    }

    predicate IsNode(n: Node) {
      n.lvl < levels && n.idx < Count(n.lvl)
    }

    function Slot(n: Node): nat {
      Base(n.lvl) + n.idx
    }

    function Parent(n: Node): Node
      requires n.lvl > 0
    {
      Node(n.lvl - 1, n.idx / 2)
    }

    function Child(n: Node, right: bool): Node {
      Node(n.lvl + 1, 2 * n.idx + if right then 1 else 0)
    }

    /** `getBuddy`. */
    function Buddy(n: Node): Node {
      Node(n.lvl, if n.idx % 2 == 0 then n.idx + 1 else n.idx - 1)
    }

    // ----- arithmetic of the tables

    lemma {:induction false} CountEven(l: nat)
      requires Ok()
      ensures Count(l) % 2 == 0 && Count(l) > 0
    {
      if l > 0 { CountEven(l - 1); }
    }

    lemma {:induction false} BaseGrows(l: nat, m: nat)
      requires l < m
      ensures Base(l) + Count(l) <= Base(m)
      decreases m
    {
      if l < m - 1 { BaseGrows(l, m - 1); }
    }

    /** Distinct entries have distinct places. */
    lemma SlotInjective(n: Node, m: Node)
      requires IsNode(n) && IsNode(m) && n != m
      ensures Slot(n) != Slot(m)
    {
      if n.lvl < m.lvl { BaseGrows(n.lvl, m.lvl); }
      if m.lvl < n.lvl { BaseGrows(m.lvl, n.lvl); }
    }

    lemma SlotInTable(n: Node)
      requires IsNode(n)
      ensures Slot(n) < Base(levels)
    {
      BaseGrows(n.lvl, levels);
    }

    lemma ParentIsNode(n: Node)
      requires IsNode(n) && n.lvl > 0
      ensures IsNode(Parent(n))
    {
    }

    lemma ChildIsNode(n: Node, right: bool)
      requires IsNode(n) && n.lvl + 1 < levels
      ensures IsNode(Child(n, right)) && Parent(Child(n, right)) == n
      ensures Buddy(Child(n, right)) == Child(n, !right)
    {
    }

    lemma BuddyIsNode(n: Node)
      requires Ok() && IsNode(n)
      ensures IsNode(Buddy(n)) && Buddy(n) != n && Buddy(Buddy(n)) == n
      ensures n.lvl > 0 ==> Parent(Buddy(n)) == Parent(n)
    {
      CountEven(n.lvl);
    }
  }

  // ----- well-formed tables

  predicate OneFlag(f: Flags) {
    f == BLANK || f == FREE || f == SPLITUP || f == ALLOCATED
  }

  /** An entry above level 0 carries a flag exactly when its parent is split up. */
  ghost predicate LinkOk(g: Geometry, t: Table, n: Node) {
    n in t && (n.lvl > 0 ==> g.Parent(n) in t && (t[n] != BLANK <==> t[g.Parent(n)].splitUp))
  }

  /** Every entry carries at most one flag; on level 0 it carries one; the smallest blocks are never
      split up. */
  ghost predicate Flagged(g: Geometry, t: Table) {
    && (forall n: Node :: g.IsNode(n) <==> n in t)
    && (forall n: Node {:trigger OneFlag(t[n])} :: n in t ==> OneFlag(t[n]))
    && (forall n: Node {:trigger g.IsNode(n)} :: g.IsNode(n) && n.lvl == 0 ==> t[n] != BLANK)
    && (forall n: Node {:trigger t[n].splitUp} :: n in t && n.lvl + 1 == g.levels ==> !t[n].splitUp)
  }

  /** Flags hang together: an entry above level 0 carries one exactly when its parent is split up. */
  ghost predicate Linked(g: Geometry, t: Table) {
    forall n: Node {:trigger LinkOk(g, t, n)} :: g.IsNode(n) ==> LinkOk(g, t, n)
  }

  ghost predicate Shaped(g: Geometry, t: Table) {
    Flagged(g, t) && Linked(g, t)
  }

  /** The buddy of a free entry above level 0 is not free. */
  ghost predicate PairOk(g: Geometry, t: Table, n: Node) {
    n in t && n.lvl > 0 && t[n].free ==> g.Buddy(n) in t && !t[g.Buddy(n)].free
  }

  /** That holds for all entries, except for children of the entries `open`. */
  ghost predicate MergedExcept(g: Geometry, t: Table, open: set<Node>) {
    forall n: Node {:trigger PairOk(g, t, n)} :: g.IsNode(n) && n.lvl > 0 && g.Parent(n) !in open ==> PairOk(g, t, n)
  }

  ghost predicate Merged(g: Geometry, t: Table) {
    MergedExcept(g, t, {})
  }

  ghost predicate Sound(g: Geometry, t: Table) {
    g.Ok() && Shaped(g, t) && Merged(g, t)
  }

  // ----- ancestors

  /** `k` levels down. */
  function Up(g: Geometry, n: Node, k: nat): Node
    requires k <= n.lvl
    ensures Up(g, n, k).lvl == n.lvl - k
  {
    if k == 0 then n else g.Parent(Up(g, n, k - 1))
  }

  lemma {:induction false} UpFromParent(g: Geometry, n: Node, k: nat)
    requires 0 < k <= n.lvl
    ensures Up(g, n, k) == Up(g, g.Parent(n), k - 1)
  {
    if k > 1 { UpFromParent(g, n, k - 1); }
  }

  lemma {:induction false} UpTwice(g: Geometry, n: Node, j: nat, k: nat)
    requires j + k <= n.lvl
    ensures Up(g, n, j + k) == Up(g, Up(g, n, j), k)
  {
    if k > 0 { UpTwice(g, n, j, k - 1); }
  }

  lemma {:induction false} UpIsNode(g: Geometry, n: Node, k: nat)
    requires g.IsNode(n) && k <= n.lvl
    ensures g.IsNode(Up(g, n, k))
  {
    if k > 0 {
      UpIsNode(g, n, k - 1);
      g.ParentIsNode(Up(g, n, k - 1));
    }
  }

  /** `m` is `n` or lies in the tree under it. */
  ghost predicate Within(g: Geometry, m: Node, n: Node) {
    n.lvl <= m.lvl && Up(g, m, m.lvl - n.lvl) == n
  }

  ghost predicate Live(g: Geometry, t: Table, n: Node) {
    g.IsNode(n) && n in t && t[n].alloc
  }

  /** A live block lies in the tree strictly under `n`. */
  ghost predicate LiveUnder(g: Geometry, t: Table, n: Node) {
    exists m: Node {:trigger Live(g, t, m)} :: Live(g, t, m) && Within(g, m, n) && m != n
  }

  /** The blocks `m` and `n` share memory. */
  ghost predicate Overlap(g: Geometry, m: Node, n: Node) {
    Within(g, m, n) || Within(g, n, m)
  }

  lemma ParentStep(g: Geometry, t: Table, n: Node)
    requires Sound(g, t) && g.IsNode(n) && n.lvl > 0
    ensures g.IsNode(g.Parent(n)) && n in t && g.Parent(n) in t
    ensures t[n] != BLANK <==> t[g.Parent(n)].splitUp
  {
    g.ParentIsNode(n);
    assert LinkOk(g, t, n);
  }

  /** Everything above an entry that carries a flag is split up. */
  lemma {:induction false} SplitAbove(g: Geometry, t: Table, n: Node, k: nat)
    requires Sound(g, t) && g.IsNode(n) && n in t && t[n] != BLANK && 0 < k <= n.lvl
    ensures Up(g, n, k) in t && t[Up(g, n, k)].splitUp
  {
    if k > 1 { SplitAbove(g, t, n, k - 1); }
    UpIsNode(g, n, k - 1);
    ParentStep(g, t, Up(g, n, k - 1));
  }

  /** A split entry has a live block under it. */
  lemma {:induction false} SplitHoldsLive(g: Geometry, t: Table, n: Node)
    requires Sound(g, t) && g.IsNode(n) && t[n].splitUp
    ensures LiveUnder(g, t, n)
    decreases g.levels - n.lvl
  {
    assert n.lvl + 1 < g.levels;
    var a, b := g.Child(n, false), g.Child(n, true);
    g.ChildIsNode(n, false);
    g.ChildIsNode(n, true);
    ParentStep(g, t, a);
    ParentStep(g, t, b);
    assert OneFlag(t[a]) && OneFlag(t[b]);
    assert PairOk(g, t, a);
    var c := if t[a].free then b else a;
    assert Up(g, c, 0) == c && Up(g, c, 1) == n;
    if t[c].alloc {
      assert Live(g, t, c) && Within(g, c, n);
    } else {
      SplitHoldsLive(g, t, c);
      var m: Node :| Live(g, t, m) && Within(g, m, c) && m != c;
      UpTwice(g, m, m.lvl - c.lvl, 1);
      assert Live(g, t, m) && Within(g, m, n) && m != n;
    }
  }

  /** The table is determined by its live blocks: an entry is split up when a live block lies under
      it, and free when none lies in it while one lies in its parent (or it is on level 0). */
  lemma FlagsFromLive(g: Geometry, t: Table, n: Node)
    requires Sound(g, t) && g.IsNode(n)
    ensures n in t
    ensures t[n].splitUp <==> LiveUnder(g, t, n)
    ensures t[n].free <==> !t[n].alloc && !LiveUnder(g, t, n) && (n.lvl > 0 ==> LiveUnder(g, t, g.Parent(n)))
    ensures OneFlag(t[n])
  {
    SplitIffLive(g, t, n);
    assert OneFlag(t[n]);
    if n.lvl > 0 {
      ParentStep(g, t, n);
      SplitIffLive(g, t, g.Parent(n));
    }
  }

  lemma SplitIffLive(g: Geometry, t: Table, n: Node)
    requires Sound(g, t) && g.IsNode(n)
    ensures n in t && (t[n].splitUp <==> LiveUnder(g, t, n))
  {
    if t[n].splitUp { SplitHoldsLive(g, t, n); }
    if LiveUnder(g, t, n) {
      var m: Node :| Live(g, t, m) && Within(g, m, n) && m != n;
      SplitAbove(g, t, m, m.lvl - n.lvl);
    }
  }

  /** Two sound tables with the same live blocks are the same table. */
  lemma SameLiveSameTable(g: Geometry, t: Table, u: Table)
    requires Sound(g, t) && Sound(g, u)
    requires forall n: Node :: Live(g, t, n) <==> Live(g, u, n)
    ensures t == u
  {
    forall n: Node | g.IsNode(n) ensures n in t && n in u && t[n] == u[n] {
      FlagsFromLive(g, t, n);
      FlagsFromLive(g, u, n);
      SameUnder(g, t, u, n);
      if n.lvl > 0 { SameUnder(g, t, u, g.Parent(n)); }
      assert Live(g, t, n) <==> Live(g, u, n);
    }
  }

  lemma SameUnder(g: Geometry, t: Table, u: Table, n: Node)
    requires forall m: Node :: Live(g, t, m) <==> Live(g, u, m)
    ensures LiveUnder(g, t, n) <==> LiveUnder(g, u, n)
  {
  }

  /** Live blocks never overlap. */
  lemma LiveApart(g: Geometry, t: Table, m: Node, n: Node)
    requires Sound(g, t) && Live(g, t, m) && Live(g, t, n) && m != n
    ensures !Overlap(g, m, n)
  {
    FlagsFromLive(g, t, m);
    FlagsFromLive(g, t, n);
  }

  // ----- room for a block

  ghost predicate FreeUpTo(g: Geometry, t: Table, k: nat) {
    exists f: Node {:trigger g.IsNode(f)} :: g.IsNode(f) && f in t && t[f].free && f.lvl <= k
  }

  /** No live block shares memory with `w`. */
  ghost predicate Unused(g: Geometry, t: Table, w: Node) {
    forall m: Node :: Live(g, t, m) ==> !Overlap(g, m, w)
  }

  /** A block of level `k` can be had exactly when some aligned block of that size is unused. */
  lemma RoomExactly(g: Geometry, t: Table, k: nat)
    requires Sound(g, t) && k < g.levels
    ensures FreeUpTo(g, t, k) <==> exists w: Node :: g.IsNode(w) && w.lvl == k && Unused(g, t, w)
  {
    if FreeUpTo(g, t, k) {
      var f: Node :| g.IsNode(f) && f in t && t[f].free && f.lvl <= k;
      var w := Leftmost(g, f, k);
      UnusedUnderFree(g, t, f, w);
    }
    if w: Node :| g.IsNode(w) && w.lvl == k && Unused(g, t, w) {
      FreeAboveUnused(g, t, w, 0);
    }
  }

  lemma {:induction false} Leftmost(g: Geometry, f: Node, k: nat) returns (w: Node)
    requires g.IsNode(f) && f.lvl <= k < g.levels
    ensures g.IsNode(w) && w.lvl == k && Within(g, w, f)
    decreases k
  {
    if f.lvl == k {
      w := f;
      assert Up(g, w, 0) == f;
    } else {
      var v := Leftmost(g, f, k - 1);
      g.ChildIsNode(v, false);
      w := g.Child(v, false);
      UpFromParent(g, w, w.lvl - f.lvl);
    }
  }

  lemma UnusedUnderFree(g: Geometry, t: Table, f: Node, w: Node)
    requires Sound(g, t) && g.IsNode(f) && t[f].free && g.IsNode(w) && Within(g, w, f)
    ensures Unused(g, t, w)
  {
    FlagsFromLive(g, t, f);
    forall m: Node | Live(g, t, m) ensures !Overlap(g, m, w) {
      OverlapAbove(g, m, w, f);
      if m.lvl < f.lvl && Within(g, f, m) { SplitAbove(g, t, f, f.lvl - m.lvl); }
      assert OneFlag(t[m]);
    }
  }

  lemma OverlapAbove(g: Geometry, m: Node, w: Node, f: Node)
    requires Within(g, w, f)
    ensures Overlap(g, m, w) ==> Overlap(g, m, f)
  {
    if Within(g, m, w) {
      UpTwice(g, m, m.lvl - w.lvl, w.lvl - f.lvl);
    } else if Within(g, w, m) {
      if f.lvl <= m.lvl {
        UpTwice(g, w, w.lvl - m.lvl, m.lvl - f.lvl);
      } else {
        UpTwice(g, w, w.lvl - f.lvl, f.lvl - m.lvl);
      }
    }
  }

  /** Going up from an unused block one meets a free entry. */
  lemma {:induction false} FreeAboveUnused(g: Geometry, t: Table, w: Node, k: nat)
    requires Sound(g, t) && g.IsNode(w) && Unused(g, t, w) && k <= w.lvl
    requires k > 0 ==> Up(g, w, k - 1) in t && t[Up(g, w, k - 1)] == BLANK
    ensures FreeUpTo(g, t, w.lvl)
    decreases w.lvl - k
  {
    var n := Up(g, w, k);
    UpIsNode(g, w, k);
    assert Within(g, w, n);
    assert OneFlag(t[n]);
    assert t[n].alloc ==> Live(g, t, n);
    if k > 0 {
      UpIsNode(g, w, k - 1);
      ParentStep(g, t, Up(g, w, k - 1));
    } else {
      SplitIffLive(g, t, n);
    }
    if t[n] == BLANK {
      FreeAboveUnused(g, t, w, k + 1);
    }
  }

  // ----- bytes

  function Start(g: Geometry, n: Node): nat
    requires n.lvl <= g.bits
  {
    Times(n.idx, g.BlockSize(n.lvl))
  }

  predicate Covers(g: Geometry, n: Node, offset: nat)
    requires n.lvl <= g.bits
  {
    Start(g, n) <= offset < Start(g, n) + g.BlockSize(n.lvl)
  }

  lemma CoveredByParent(g: Geometry, n: Node, offset: nat)
    requires 0 < n.lvl <= g.bits
    ensures Covers(g, n, offset) ==> Covers(g, g.Parent(n), offset)
    ensures Covers(g, g.Parent(n), offset) ==> Covers(g, n, offset) || Covers(g, g.Buddy(n), offset)
  {
    var half, size := g.BlockSize(n.lvl), g.BlockSize(n.lvl - 1);
    assert size == 2 * half;
    var i := n.idx / 2;
    TimesDouble(i, half);
    assert Times(2 * i + 1, half) == Times(2 * i, half) + half;
  }

  lemma OnlyOneCovers(g: Geometry, m: Node, n: Node, offset: nat)
    requires m.lvl == n.lvl <= g.bits && Covers(g, m, offset) && Covers(g, n, offset)
    ensures m == n
  {
    if m.idx < n.idx { TimesApart(m.idx, n.idx, g.BlockSize(m.lvl)); }
    if n.idx < m.idx { TimesApart(n.idx, m.idx, g.BlockSize(m.lvl)); }
  }

  /** The block of a level that covers a byte, as `heapAddressToEntry` computes it. */
  function NodeAt(g: Geometry, l: nat, offset: nat): Node
    requires l <= g.bits
  {
    Node(l, Quotient(offset, g.BlockSize(l)))
  }

  lemma {:induction false} LevelsCoverHeap(g: Geometry, l: nat)
    requires l <= g.bits
    ensures Times(g.Count(l), g.BlockSize(l)) == g.HeapSize()
  {
    if l > 0 {
      LevelsCoverHeap(g, l - 1);
      TimesDouble(g.Count(l - 1), g.BlockSize(l));
    }
  }

  lemma NodeAtCovers(g: Geometry, l: nat, offset: nat)
    requires g.Ok() && l < g.levels && offset < g.HeapSize()
    ensures g.IsNode(NodeAt(g, l, offset)) && Covers(g, NodeAt(g, l, offset), offset)
  {
    var size, n := g.BlockSize(l), NodeAt(g, l, offset);
    LevelsCoverHeap(g, l);
    if g.Count(l) < n.idx { TimesApart(g.Count(l), n.idx, size); }
  }

  /** Every byte of the heap lies in exactly one free or live block. All blocks around that one are
      split up, all blocks inside it carry no flag. */
  lemma Tiling(g: Geometry, t: Table, offset: nat) returns (leaf: Node)
    requires Sound(g, t) && offset < g.HeapSize()
    ensures g.IsNode(leaf) && Covers(g, leaf, offset) && leaf in t && (t[leaf] == FREE || t[leaf] == ALLOCATED)
    ensures forall n: Node :: g.IsNode(n) && Covers(g, n, offset) ==>
              n in t && t[n] == if n.lvl < leaf.lvl then SPLITUP else if n == leaf then t[leaf] else BLANK
  {
    NodeAtCovers(g, 0, offset);
    var root := NodeAt(g, 0, offset);
    leaf := Descend(g, t, root, offset);
    forall n: Node | g.IsNode(n) && Covers(g, n, offset)
      ensures n in t && t[n] == if n.lvl < leaf.lvl then SPLITUP else if n == leaf then t[leaf] else BLANK
    {
      if n.lvl < leaf.lvl {
        CoveredAbove(g, leaf, offset, leaf.lvl - n.lvl);
        OnlyOneCovers(g, Up(g, leaf, leaf.lvl - n.lvl), n, offset);
        SplitAbove(g, t, leaf, leaf.lvl - n.lvl);
        assert OneFlag(t[n]);
      } else if n.lvl == leaf.lvl {
        OnlyOneCovers(g, n, leaf, offset);
      } else {
        CoveredAbove(g, n, offset, n.lvl - leaf.lvl);
        OnlyOneCovers(g, Up(g, n, n.lvl - leaf.lvl), leaf, offset);
        if t[n] != BLANK { SplitAbove(g, t, n, n.lvl - leaf.lvl); }
      }
    }
  }

  lemma {:induction false} Descend(g: Geometry, t: Table, n: Node, offset: nat) returns (leaf: Node)
    requires Sound(g, t) && g.IsNode(n) && Covers(g, n, offset) && n in t && t[n] != BLANK
    ensures g.IsNode(leaf) && Covers(g, leaf, offset) && leaf in t && (t[leaf] == FREE || t[leaf] == ALLOCATED)
    decreases g.levels - n.lvl
  {
    assert OneFlag(t[n]);
    if !t[n].splitUp { return n; }
    assert n.lvl + 1 < g.levels;
    var a := g.Child(n, false);
    g.ChildIsNode(n, false);
    g.ChildIsNode(n, true);
    CoveredByParent(g, a, offset);
    var c := if Covers(g, a, offset) then a else g.Child(n, true);
    ParentStep(g, t, c);
    leaf := Descend(g, t, c, offset);
  }

  lemma {:induction false} CoveredAbove(g: Geometry, n: Node, offset: nat, k: nat)
    requires n.lvl <= g.bits && Covers(g, n, offset) && k <= n.lvl
    ensures Covers(g, Up(g, n, k), offset)
  {
    if k > 0 {
      CoveredAbove(g, n, offset, k - 1);
      CoveredByParent(g, Up(g, n, k - 1), offset);
    }
  }

  /** Two blocks overlap in the tree exactly when they have a byte in common. */
  lemma OverlapIsSharedByte(g: Geometry, m: Node, n: Node)
    requires g.Ok() && g.IsNode(m) && g.IsNode(n)
    ensures Overlap(g, m, n) <==> exists offset: nat :: Covers(g, m, offset) && Covers(g, n, offset)
  {
    if Within(g, m, n) {
      CoveredAbove(g, m, Start(g, m), m.lvl - n.lvl);
    } else if Within(g, n, m) {
      CoveredAbove(g, n, Start(g, n), n.lvl - m.lvl);
    }
    if offset: nat :| Covers(g, m, offset) && Covers(g, n, offset) {
      if n.lvl <= m.lvl {
        CoveredAbove(g, m, offset, m.lvl - n.lvl);
        OnlyOneCovers(g, Up(g, m, m.lvl - n.lvl), n, offset);
      } else {
        CoveredAbove(g, n, offset, n.lvl - m.lvl);
        OnlyOneCovers(g, Up(g, n, n.lvl - m.lvl), m, offset);
      }
    }
  }
}
