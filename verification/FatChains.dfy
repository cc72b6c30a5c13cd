/** Files as chains of FAT entries: what `driver/fat32.c` keeps true of the first FAT. */
module FatChains {
  import opened FatLayout

  /** An entry that names a further cluster. */
  predicate IsLink(entry: nat) {
    entry != FAT_ENTRY_FREE && entry != FAT_ENTRY_USED
  }

  /** `ch` is the list of clusters from its first one to the end-of-chain mark. */
  ghost predicate IsChain(fat: seq<nat>, ch: seq<nat>) {
    && |ch| > 0 && |fat| <= FAT_ENTRY_USED
    && (forall i :: 0 <= i < |ch| ==> 2 <= ch[i] < |fat|)
    && (forall i {:trigger ch[i + 1]} :: 0 <= i < |ch| - 1 ==> fat[ch[i]] == ch[i + 1])
    && fat[ch[|ch| - 1]] == FAT_ENTRY_USED
  }

  ghost predicate Distinct(ch: seq<nat>) {
    forall i, j :: 0 <= i < j < |ch| ==> ch[i] != ch[j]
  }

  ghost predicate NoShare(a: seq<nat>, b: seq<nat>) {
    forall c :: c in a ==> c !in b
  }

  lemma ChainLink(fat: seq<nat>, ch: seq<nat>, i: nat)
    requires IsChain(fat, ch) && i < |ch|
    ensures fat[ch[i]] == if i + 1 < |ch| then ch[i + 1] else FAT_ENTRY_USED
  {
    if i + 1 < |ch| { assert ch[i + 1] == fat[ch[i]]; }
  }

  /** Chains that end are acyclic. */
  lemma {:induction false} ChainsDistinct(fat: seq<nat>, ch: seq<nat>)
    requires IsChain(fat, ch)
    ensures Distinct(ch)
  {
    forall i, j | 0 <= i < j < |ch| ensures ch[i] != ch[j] {
      if ch[i] == ch[j] { NoRepeat(fat, ch, i, j); }
    }
  }

  lemma {:induction false} NoRepeat(fat: seq<nat>, ch: seq<nat>, i: nat, j: nat)
    requires IsChain(fat, ch) && i < j < |ch|
    ensures ch[i] != ch[j]
    decreases |ch| - j
  {
    ChainLink(fat, ch, i);
    ChainLink(fat, ch, j);
    if ch[i] == ch[j] && j + 1 < |ch| { NoRepeat(fat, ch, i + 1, j + 1); }
  }

  /** A chain is determined by its first cluster. */
  lemma {:induction false} ChainUnique(fat: seq<nat>, a: seq<nat>, b: seq<nat>)
    requires IsChain(fat, a) && IsChain(fat, b) && a[0] == b[0]
    ensures a == b
  {
    ChainsAgree(fat, a, b, if |a| <= |b| then |a| - 1 else |b| - 1);
    ChainLink(fat, a, |a| - 1);
    ChainLink(fat, b, |b| - 1);
    if |a| < |b| { ChainLink(fat, b, |a| - 1); }
    if |b| < |a| { ChainLink(fat, a, |b| - 1); }
  }

  lemma {:induction false} ChainsAgree(fat: seq<nat>, a: seq<nat>, b: seq<nat>, n: nat)
    requires IsChain(fat, a) && IsChain(fat, b) && a[0] == b[0]
    requires n < |a| && n < |b|
    ensures forall i :: 0 <= i <= n ==> a[i] == b[i]
  {
    if n > 0 {
      ChainsAgree(fat, a, b, n - 1);
      ChainLink(fat, a, n - 1);
      ChainLink(fat, b, n - 1);
    }
  }

  // ----- changing one chain

  /** The chain `ch` (or no chain, when `ch` is empty) was replaced by `ch'`: clusters that left it
      are free, clusters that joined it were free, no other entry changed. */
  ghost predicate Rewritten(fat: seq<nat>, ch: seq<nat>, fat': seq<nat>, ch': seq<nat>) {
    && |fat'| == |fat|
    && IsChain(fat', ch')
    && (ch == [] || IsChain(fat, ch))
    && (forall c: nat {:trigger fat'[c]} :: c < |fat| && c !in ch' ==> fat'[c] == if c in ch then FAT_ENTRY_FREE else fat[c])
    && (forall c: nat {:trigger fat[c]} :: c < |fat| && c in ch' && c !in ch ==> fat[c] == FAT_ENTRY_FREE)
  }

  lemma RewrittenTwice(fat: seq<nat>, a: seq<nat>, fat1: seq<nat>, b: seq<nat>, fat2: seq<nat>, c: seq<nat>)
    requires Rewritten(fat, a, fat1, b) && Rewritten(fat1, b, fat2, c)
    ensures Rewritten(fat, a, fat2, c)
  {
    forall x: nat | x < |fat| && x !in c ensures fat2[x] == if x in a then FAT_ENTRY_FREE else fat[x] {
      var y := fat1[x];
    }
    forall x: nat | x < |fat| && x in c && x !in a ensures fat[x] == FAT_ENTRY_FREE {
      var y := fat1[x];
    }
  }

  lemma Unchanged(fat: seq<nat>, ch: seq<nat>)
    requires IsChain(fat, ch)
    ensures Rewritten(fat, ch, fat, ch)
  {
  }

  /** Linking a free cluster behind the last one. */
  lemma Extended(fat: seq<nat>, ch: seq<nat>, c: nat)
    requires IsChain(fat, ch) && 2 <= c < |fat| && fat[c] == FAT_ENTRY_FREE
    ensures c !in ch
    ensures Rewritten(fat, ch, fat[ch[|ch| - 1] := c][c := FAT_ENTRY_USED], ch + [c])
  {
    ChainsDistinct(fat, ch);
    var last := ch[|ch| - 1];
    var fat' := fat[last := c][c := FAT_ENTRY_USED];
    var ch' := ch + [c];
    forall i | 0 <= i < |ch| ensures fat[ch[i]] != FAT_ENTRY_FREE {
      ChainLink(fat, ch, i);
    }
    assert c !in ch;
    forall i | 0 <= i < |ch'| - 1 ensures fat'[ch'[i]] == ch'[i + 1] {
      ChainLink(fat, ch, i);
    }
  }

  /** Starting a chain with a free cluster. */
  lemma Started(fat: seq<nat>, c: nat)
    requires |fat| <= FAT_ENTRY_USED && 2 <= c < |fat| && fat[c] == FAT_ENTRY_FREE
    ensures Rewritten(fat, [], fat[c := FAT_ENTRY_USED], [c])
  {
  }

  // ----- all files together

  ghost predicate Covered(chains: map<nat, seq<nat>>, c: nat) {
    exists s :: s in chains && c in chains[s]
  }

  /** Every file chain starts where its key says, no two chains share a cluster, and every data
      cluster in use is on a chain. */
  ghost predicate Forest(fat: seq<nat>, chains: map<nat, seq<nat>>) {
    && (forall s :: s in chains ==> IsChain(fat, chains[s]) && chains[s][0] == s)
    && (forall s, t :: s in chains && t in chains && s != t ==> NoShare(chains[s], chains[t]))
    && (forall c: nat {:trigger Covered(chains, c)} :: 2 <= c < |fat| && fat[c] != FAT_ENTRY_FREE ==> Covered(chains, c))
  }

  /** Replacing, starting or extending one chain keeps the forest, and with it every other chain. */
  lemma ForestKept(fat: seq<nat>, chains: map<nat, seq<nat>>, s: nat, ch: seq<nat>, fat': seq<nat>, ch': seq<nat>)
    requires Forest(fat, chains) && Rewritten(fat, ch, fat', ch')
    requires ch'[0] == s && if s in chains then ch == chains[s] else ch == []
    ensures Forest(fat', chains[s := ch'])
  {
    forall t | t in chains && t != s
      ensures IsChain(fat', chains[t]) && NoShare(ch', chains[t]) && NoShare(chains[t], ch')
    {
      OtherChainKept(fat, ch, fat', ch', chains[t]);
    }
    forall c: nat | 2 <= c < |fat'| && fat'[c] != FAT_ENTRY_FREE ensures Covered(chains[s := ch'], c) {
      StillCovered(fat, chains, s, ch, fat', ch', c);
    }
  }

  lemma StillCovered(fat: seq<nat>, chains: map<nat, seq<nat>>, s: nat, ch: seq<nat>, fat': seq<nat>, ch': seq<nat>, c: nat)
    requires Forest(fat, chains) && Rewritten(fat, ch, fat', ch')
    requires if s in chains then ch == chains[s] else ch == []
    requires 2 <= c < |fat'| && fat'[c] != FAT_ENTRY_FREE
    ensures Covered(chains[s := ch'], c)
  {
    var chains' := chains[s := ch'];
    if c in ch' {
      assert s in chains' && c in chains'[s];
    } else {
      assert fat'[c] == fat[c] && c !in ch;
      assert Covered(chains, c);
      var t :| t in chains && c in chains[t];
      assert t in chains' && c in chains'[t];
    }
  }

  lemma OtherChainKept(fat: seq<nat>, ch: seq<nat>, fat': seq<nat>, ch': seq<nat>, other: seq<nat>)
    requires Rewritten(fat, ch, fat', ch') && IsChain(fat, other) && NoShare(ch, other)
    ensures IsChain(fat', other) && NoShare(ch', other)
  {
    forall i | 0 <= i < |other| ensures other[i] !in ch' && fat'[other[i]] == fat[other[i]] {
      ChainLink(fat, other, i);
      assert other[i] !in ch;
    }
    forall i | 0 <= i < |other| - 1 ensures fat'[other[i]] == other[i + 1] {
      ChainLink(fat, other, i);
    }
  }

  /** A volume with the files it holds. */
  datatype Files = Files(fat: seq<nat>, chains: map<nat, seq<nat>>)

  /** Some operation rewrote the chain of file `s`, or created that file. */
  ghost predicate FileStep(a: Files, s: nat, b: Files) {
    && s in b.chains && b.chains == a.chains[s := b.chains[s]]
    && Rewritten(a.fat, if s in a.chains then a.chains[s] else [], b.fat, b.chains[s])
    && b.chains[s][0] == s
  }

  /** Forests survive every run. */
  lemma {:induction false} ForestOverRuns(states: seq<Files>, starts: seq<nat>)
    requires |states| == |starts| + 1 && Forest(states[0].fat, states[0].chains)
    requires forall i {:trigger starts[i]} :: 0 <= i < |starts| ==> FileStep(states[i], starts[i], states[i + 1])
    ensures forall i :: 0 <= i < |states| ==> Forest(states[i].fat, states[i].chains)
  {
    if |starts| > 0 {
      var a, s, b := states[0], starts[0], states[1];
      ForestKept(a.fat, a.chains, s, if s in a.chains then a.chains[s] else [], b.fat, b.chains[s]);
      assert forall i :: 0 <= i < |starts| - 1 ==> starts[1..][i] == starts[i + 1];
      ForestOverRuns(states[1..], starts[1..]);
    }
  }

  /** A chain that begins at the first cluster of a file is that file. */
  lemma ForestOwns(fat: seq<nat>, chains: map<nat, seq<nat>>, ch: seq<nat>)
    requires Forest(fat, chains) && IsChain(fat, ch) && ch[0] in chains
    ensures chains[ch[0]] == ch
  {
    ChainUnique(fat, chains[ch[0]], ch);
  }

  // ----- conservation of clusters

  ghost function FreeClusters(fat: seq<nat>): set<nat> {
    set c: nat | 2 <= c < |fat| && fat[c] == FAT_ENTRY_FREE
  }

  function Cells(ch: seq<nat>): set<nat> {
    set c | c in ch
  }

  lemma {:induction false} DistinctCount(ch: seq<nat>)
    requires Distinct(ch)
    ensures |Cells(ch)| == |ch|
  {
    if |ch| > 0 {
      var n := |ch| - 1;
      DistinctCount(ch[..n]);
      assert Cells(ch) == Cells(ch[..n]) + {ch[n]};
    }
  }

  /** Free clusters and the clusters of the rewritten chain add up to the same number. */
  lemma ClustersConserved(fat: seq<nat>, ch: seq<nat>, fat': seq<nat>, ch': seq<nat>)
    requires Rewritten(fat, ch, fat', ch')
    ensures |FreeClusters(fat')| + |ch'| == |FreeClusters(fat)| + |ch|
  {
    if ch != [] { ChainsDistinct(fat, ch); }
    ChainsDistinct(fat', ch');
    DistinctCount(ch);
    DistinctCount(ch');
    InUse(fat', ch');
    if ch != [] { InUse(fat, ch); }
    SameClusters(fat, ch, fat', ch');
    assert |FreeClusters(fat') + Cells(ch')| == |FreeClusters(fat')| + |Cells(ch')|;
    assert |FreeClusters(fat) + Cells(ch)| == |FreeClusters(fat)| + |Cells(ch)|;
  }

  lemma SameClusters(fat: seq<nat>, ch: seq<nat>, fat': seq<nat>, ch': seq<nat>)
    requires Rewritten(fat, ch, fat', ch')
    ensures FreeClusters(fat') + Cells(ch') == FreeClusters(fat) + Cells(ch)
  {
    forall c: nat ensures c in FreeClusters(fat') + Cells(ch') <==> c in FreeClusters(fat) + Cells(ch) {
      if c in ch { assert 2 <= c < |fat|; }
      if c in ch' { assert 2 <= c < |fat|; }
      if 2 <= c < |fat| && c !in ch' { assert fat'[c] == if c in ch then FAT_ENTRY_FREE else fat[c]; }
      if 2 <= c < |fat| && c in ch' && c !in ch { assert fat[c] == FAT_ENTRY_FREE; }
    }
  }

  /** Which clusters are free after a chain was rewritten. */
  lemma FreeAfter(fat: seq<nat>, ch: seq<nat>, fat': seq<nat>, ch': seq<nat>, c: nat)
    requires Rewritten(fat, ch, fat', ch') && c < |fat|
    ensures fat'[c] == FAT_ENTRY_FREE <==> c !in ch' && (c in ch || fat[c] == FAT_ENTRY_FREE)
  {
    if c in ch' {
      InUse(fat', ch');
    } else {
      assert fat'[c] == if c in ch then FAT_ENTRY_FREE else fat[c];
    }
  }

  lemma SplitDistinct(ch: seq<nat>, k: nat)
    requires Distinct(ch) && k <= |ch|
    ensures forall c :: c in ch <==> c in ch[..k] || c in ch[k..]
    ensures NoShare(ch[..k], ch[k..])
  {
    assert ch == ch[..k] + ch[k..];
    forall c | c in ch[..k] ensures c !in ch[k..] {
      var i :| 0 <= i < k && ch[..k][i] == c;
      assert ch[i] == c;
    }
  }

  lemma InUse(fat: seq<nat>, ch: seq<nat>)
    requires IsChain(fat, ch)
    ensures FreeClusters(fat) !! Cells(ch)
    ensures forall c :: c in ch ==> fat[c] != FAT_ENTRY_FREE
  {
    forall i | 0 <= i < |ch| ensures fat[ch[i]] != FAT_ENTRY_FREE {
      ChainLink(fat, ch, i);
    }
  }

  // ----- cutting a chain, on any FAT

  /** The `k`-th entry met when following the links from cluster `c`. */
  ghost function Follow(fat: seq<nat>, c: nat, k: nat): nat
  {
    if k == 0 then c
    else
      var x := Follow(fat, c, k - 1);
      if x < |fat| && (k == 1 || IsLink(x)) then fat[x] else x
  }

  /** Cluster `x` comes after `c`. */
  ghost predicate Follows(fat: seq<nat>, c: nat, x: nat) {
    IsLink(x) && exists k: nat :: k > 0 && Follow(fat, c, k) == x
  }

  /** All links met behind `c` name data clusters. */
  ghost predicate LinksInRange(fat: seq<nat>, c: nat) {
    c < |fat| <= FAT_ENTRY_USED && forall x: nat :: Follows(fat, c, x) ==> 2 <= x < |fat|
  }

  /** `c` ends its chain, and exactly the clusters behind it are free. */
  ghost predicate Unlinked(fat: seq<nat>, c: nat, fat': seq<nat>) {
    && |fat'| == |fat|
    && forall x: nat {:trigger fat'[x]} :: x < |fat| ==>
         fat'[x] == if x == c then FAT_ENTRY_USED else if Follows(fat, c, x) then FAT_ENTRY_FREE else fat[x]
  }

  /** What the loop of `unlinkFatChain` has freed: the first entries behind `c`. Either `next` is the
      entry behind them, or the walk came back to a freed cluster. */
  ghost predicate Freed(fat: seq<nat>, c: nat, walk: seq<nat>, next: nat) {
    && (forall i {:trigger walk[i]} :: 0 <= i < |walk| ==> IsLink(walk[i]) && walk[i] == Follow(fat, c, i + 1))
    && Distinct(walk)
    && (next == Follow(fat, c, |walk| + 1) || (next == FAT_ENTRY_FREE && Follow(fat, c, |walk| + 1) in walk))
  }

  ghost function Cleared(fat: seq<nat>, walk: seq<nat>): seq<nat>
    requires forall x :: x in walk ==> x < |fat|
  {
    seq(|fat|, x requires 0 <= x < |fat| => if x in walk then FAT_ENTRY_FREE else fat[x])
  }

  lemma WalkFollows(fat: seq<nat>, c: nat, walk: seq<nat>, next: nat, i: nat)
    requires Freed(fat, c, walk, next) && i < |walk|
    ensures Follows(fat, c, walk[i])
  {
    assert Follow(fat, c, i + 1) == walk[i];
  }

  /** One round of the loop. */
  lemma FreedStep(fat: seq<nat>, c: nat, walk: seq<nat>, next: nat)
    requires LinksInRange(fat, c) && Freed(fat, c, walk, next) && IsLink(next)
    ensures 2 <= next < |fat|
    ensures if next in walk then Freed(fat, c, walk, FAT_ENTRY_FREE) else Freed(fat, c, walk + [next], fat[next])
  {
    assert next == Follow(fat, c, |walk| + 1);
    assert Follows(fat, c, next);
    if next !in walk {
      var walk' := walk + [next];
      assert Follow(fat, c, |walk'| + 1) == fat[next];
    }
  }

  /** When the loop stops it has freed everything behind `c`. */
  lemma FreedAll(fat: seq<nat>, c: nat, walk: seq<nat>, next: nat)
    requires Freed(fat, c, walk, next) && !IsLink(next)
    ensures forall x :: Follows(fat, c, x) <==> x in walk
  {
    forall x: nat | Follows(fat, c, x) ensures x in walk {
      var k: nat :| k > 0 && Follow(fat, c, k) == x;
      StaysInWalk(fat, c, walk, next, k);
    }
    forall i | 0 <= i < |walk| ensures Follows(fat, c, walk[i]) {
      WalkFollows(fat, c, walk, next, i);
    }
  }

  lemma {:induction false} StaysInWalk(fat: seq<nat>, c: nat, walk: seq<nat>, next: nat, k: nat)
    requires Freed(fat, c, walk, next) && !IsLink(next) && k > 0
    ensures Follow(fat, c, k) in walk || !IsLink(Follow(fat, c, k))
  {
    if k <= |walk| {
      assert walk[k - 1] == Follow(fat, c, k);
    } else if k > |walk| + 1 {
      StaysInWalk(fat, c, walk, next, k - 1);
      var x := Follow(fat, c, k - 1);
      if x in walk {
        var i :| 0 <= i < |walk| && walk[i] == x;
        assert Follow(fat, c, i + 1) == x;
        StaysInWalk(fat, c, walk, next, i + 1);
        SameSuccessor(fat, c, i + 1, k - 1);
        if i + 1 < |walk| { assert walk[i + 1] == Follow(fat, c, i + 2); }
      }
    }
  }

  lemma SameSuccessor(fat: seq<nat>, c: nat, i: nat, j: nat)
    requires 0 < i && 0 < j && Follow(fat, c, i) == Follow(fat, c, j)
    ensures Follow(fat, c, i + 1) == Follow(fat, c, j + 1)
  {
  }

  /** Behind cluster `k` of a chain come exactly the later clusters of that chain. */
  lemma {:induction false} FollowChain(fat: seq<nat>, ch: seq<nat>, k: nat, n: nat)
    requires IsChain(fat, ch) && k < |ch|
    ensures Follow(fat, ch[k], n) == if k + n < |ch| then ch[k + n] else FAT_ENTRY_USED
  {
    if n > 0 {
      FollowChain(fat, ch, k, n - 1);
      if k + n - 1 < |ch| { ChainLink(fat, ch, k + n - 1); }
    }
  }

  lemma FollowsChain(fat: seq<nat>, ch: seq<nat>, k: nat)
    requires IsChain(fat, ch) && k < |ch|
    ensures forall x :: Follows(fat, ch[k], x) <==> x in ch[k + 1..]
    ensures LinksInRange(fat, ch[k])
  {
    forall x: nat | Follows(fat, ch[k], x) ensures x in ch[k + 1..] {
      var n: nat :| n > 0 && Follow(fat, ch[k], n) == x;
      FollowChain(fat, ch, k, n);
      assert x == ch[k + 1..][n - 1];
    }
    var tail := ch[k + 1..];
    forall i | 0 <= i < |tail| ensures Follows(fat, ch[k], tail[i]) {
      FollowChain(fat, ch, k, i + 1);
    }
  }

  /** Unlinking at cluster `k` of a chain keeps its first `k + 1` clusters. */
  lemma UnlinkedChain(fat: seq<nat>, ch: seq<nat>, k: nat, fat': seq<nat>)
    requires IsChain(fat, ch) && k < |ch| && Unlinked(fat, ch[k], fat')
    ensures Rewritten(fat, ch, fat', ch[..k + 1])
  {
    ChainsDistinct(fat, ch);
    FollowsChain(fat, ch, k);
    var ch' := ch[..k + 1];
    forall i | 0 <= i < |ch| ensures ch[i] in ch' <==> i <= k { }
    forall i | 0 <= i < |ch| ensures ch[i] in ch[k + 1..] <==> k < i {
      if k < i { assert ch[k + 1..][i - k - 1] == ch[i]; }
    }
    forall i | 0 <= i < |ch'| - 1 ensures fat'[ch'[i]] == ch'[i + 1] {
      ChainLink(fat, ch, i);
    }
  }

  /** Unlinking at the end of a chain changes nothing. */
  lemma UnlinkedEnd(fat: seq<nat>, ch: seq<nat>, fat': seq<nat>)
    requires IsChain(fat, ch) && Unlinked(fat, ch[|ch| - 1], fat')
    ensures fat' == fat
  {
    FollowsChain(fat, ch, |ch| - 1);
    ChainLink(fat, ch, |ch| - 1);
    forall x: nat | x < |fat| ensures fat'[x] == fat[x] { }
  }
}
