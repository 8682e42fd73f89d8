/** Cluster chains threaded through the allocation table (kernel/fat.c:395-421).

    `own` is the inverse of `chains`: it sends each cluster to the chain that holds it and its
    place there.  Having an inverse is what makes every chain acyclic and any two disjoint. */
module FatChains {

  datatype Link = Link(chain: nat, pos: nat)

  type Chains = seq<seq<nat>>
  type Owners = map<nat, Link>

  /** Chain s, place i: a real cluster, owned here, linked to the next or carrying an end mark. */
  ghost predicate Linked(fat: seq<nat>, eoc: nat, chains: Chains, own: Owners, s: nat, i: nat)
    requires s < |chains| && i < |chains[s]|
  {
    var c := chains[s][i];
    && 2 <= c < |fat| && c in own && own[c] == Link(s, i)
    && if i + 1 < |chains[s]| then fat[c] == chains[s][i + 1] else eoc <= fat[c]
  }

  ghost predicate Owned(chains: Chains, l: Link, c: nat)
  {
    l.chain < |chains| && l.pos < |chains[l.chain]| && chains[l.chain][l.pos] == c
  }

  /** Every chain is well formed, and a cluster is in use exactly when one chain holds it. */
  ghost predicate ChainsOk(fat: seq<nat>, eoc: nat, chains: Chains, own: Owners)
  {
    && 2 <= |fat| <= eoc
    && (forall s: nat, i: nat :: s < |chains| && i < |chains[s]| ==> Linked(fat, eoc, chains, own, s, i))
    && (forall c :: c in own ==> Owned(chains, own[c], c))
    && (forall c: nat :: 2 <= c < |fat| ==> (fat[c] != 0 <==> c in own))
  }

  function Without(own: Owners, x: nat): Owners
  {
    map c | c in own && own[c].chain != x :: own[c]
  }

  lemma ClustersInRange(fat: seq<nat>, eoc: nat, chains: Chains, own: Owners, x: nat)
    requires ChainsOk(fat, eoc, chains, own) && x < |chains|
    ensures forall i :: 0 <= i < |chains[x]| ==> 2 <= chains[x][i] < |fat|
  {
    forall i | 0 <= i < |chains[x]| ensures 2 <= chains[x][i] < |fat| {
      assert Linked(fat, eoc, chains, own, x, i);
    }
  }

  lemma NextInChain(fat: seq<nat>, eoc: nat, chains: Chains, own: Owners, x: nat, i: nat)
    requires ChainsOk(fat, eoc, chains, own) && x < |chains| && i < |chains[x]|
    ensures chains[x][i] < |fat|
    ensures if i + 1 < |chains[x]| then fat[chains[x][i]] == chains[x][i + 1] else eoc <= fat[chains[x][i]]
  {
    assert Linked(fat, eoc, chains, own, x, i);
  }

  /** Freeing chain x: its entries become 0 and nothing else changes. */
  ghost predicate Freed(fat: seq<nat>, fat': seq<nat>, own: Owners, x: nat, n: nat)
  {
    |fat'| == |fat| &&
    forall c: nat :: c < |fat| ==> fat'[c] == if c in own && own[c].chain == x && own[c].pos < n then 0 else fat[c]
  }

  lemma NoneFreed(fat: seq<nat>, own: Owners, x: nat)
    ensures Freed(fat, fat, own, x, 0)
  {
  }

  lemma FreeChain(fat: seq<nat>, eoc: nat, chains: Chains, own: Owners, x: nat, fat': seq<nat>)
    requires ChainsOk(fat, eoc, chains, own) && x < |chains|
    requires Freed(fat, fat', own, x, |chains[x]|)
    ensures ChainsOk(fat', eoc, chains[x := []], Without(own, x))
  {
    var chains', own' := chains[x := []], Without(own, x);
    forall s: nat, i: nat | s < |chains'| && i < |chains'[s]| ensures Linked(fat', eoc, chains', own', s, i) {
      assert Linked(fat, eoc, chains, own, s, i);
    }
    forall c | c in own' ensures Owned(chains', own'[c], c) {
      assert Owned(chains, own[c], c);
    }
    forall c: nat | 2 <= c < |fat| ensures fat'[c] != 0 <==> c in own' {
      if c in own { assert Owned(chains, own[c], c); }
    }
  }

  /** One step of freeing: zeroing place n of chain x. */
  lemma FreeStep(fat: seq<nat>, eoc: nat, chains: Chains, own: Owners, x: nat, n: nat, fat': seq<nat>)
    requires ChainsOk(fat, eoc, chains, own) && x < |chains| && n < |chains[x]|
    requires Freed(fat, fat', own, x, n)
    ensures var c := chains[x][n];
            && 2 <= c < |fat| && fat'[c] == fat[c]
            && (if n + 1 < |chains[x]| then fat[c] == chains[x][n + 1] else eoc <= fat[c])
            && Freed(fat, fat'[c := 0], own, x, n + 1)
  {
    var c := chains[x][n];
    assert Linked(fat, eoc, chains, own, x, n);
    forall k: nat | k < |fat| && k in own && own[k] == Link(x, n) ensures k == c {
      assert Owned(chains, own[k], k);
    }
  }

  /** Appending the free cluster c to chain x: c gets an end mark, the old last entry points to c. */
  lemma ExtendChain(fat: seq<nat>, eoc: nat, chains: Chains, own: Owners, x: nat, c: nat, mark: nat, fat': seq<nat>)
    requires ChainsOk(fat, eoc, chains, own) && x < |chains|
    requires 2 <= c < |fat| && fat[c] == 0 && eoc <= mark
    requires fat' == if chains[x] == [] then fat[c := mark]
                     else if chains[x][|chains[x]| - 1] < |fat| then fat[c := mark][chains[x][|chains[x]| - 1] := c]
                     else fat
    ensures c !in own
    ensures ChainsOk(fat', eoc, chains[x := chains[x] + [c]], own[c := Link(x, |chains[x]|)])
  {
    var chains', own' := chains[x := chains[x] + [c]], own[c := Link(x, |chains[x]|)];
    if chains[x] != [] {
      assert Linked(fat, eoc, chains, own, x, |chains[x]| - 1);
    }
    forall s: nat, i: nat | s < |chains'| && i < |chains'[s]| ensures Linked(fat', eoc, chains', own', s, i) {
      if i < |chains[s]| { assert Linked(fat, eoc, chains, own, s, i); }
    }
    forall k | k in own' ensures Owned(chains', own'[k], k) {
      if k != c { assert Owned(chains, own[k], k); }
    }
  }

  function Relabelled(own: Owners, x: nat, y: nat): Owners
  {
    map c | c in own :: if own[c].chain == x then Link(y, own[c].pos) else own[c]
  }

  function Moved(chains: Chains, x: nat, y: nat): Chains
    requires x < |chains| && y < |chains|
  {
    chains[y := chains[x]][x := []]
  }

  /** Handing chain x over to the empty chain y. */
  lemma MoveChain(fat: seq<nat>, eoc: nat, chains: Chains, own: Owners, x: nat, y: nat)
    requires ChainsOk(fat, eoc, chains, own) && x < |chains| && y < |chains| && x != y && chains[y] == []
    ensures ChainsOk(fat, eoc, Moved(chains, x, y), Relabelled(own, x, y))
  {
    var chains', own' := Moved(chains, x, y), Relabelled(own, x, y);
    forall s: nat, i: nat | s < |chains'| && i < |chains'[s]| ensures Linked(fat, eoc, chains', own', s, i) {
      assert Linked(fat, eoc, chains, own, if s == y then x else s, i);
    }
    forall c | c in own' ensures Owned(chains', own'[c], c) {
      assert Owned(chains, own[c], c);
    }
  }

  /** How many entries of the first k are in use: the count fat_get_fs_info reports. */
  function Used(fat: seq<nat>, k: nat): nat
    requires k <= |fat|
  {
    if k <= 2 then 0 else Used(fat, k - 1) + if fat[k - 1] != 0 then 1 else 0
  }

  function TotalLength(chains: Chains): nat
  {
    if chains == [] then 0 else TotalLength(chains[..|chains| - 1]) + |chains[|chains| - 1]|
  }

  ghost function UsedSet(fat: seq<nat>, k: nat): set<nat>
    requires k <= |fat|
  {
    set c: nat | 2 <= c < k && fat[c] != 0
  }

  lemma {:induction false} UsedIsCardinal(fat: seq<nat>, k: nat)
    requires k <= |fat|
    ensures Used(fat, k) == |UsedSet(fat, k)|
  {
    if k > 2 {
      UsedIsCardinal(fat, k - 1);
      assert UsedSet(fat, k) == UsedSet(fat, k - 1) + if fat[k - 1] != 0 then {k - 1} else {};
    }
  }

  /** The clusters at the first n places of chain s. */
  ghost function Held(own: Owners, s: nat, n: nat): set<nat>
  {
    set c | c in own && own[c].chain == s && own[c].pos < n
  }

  lemma {:induction false} HeldCardinal(fat: seq<nat>, eoc: nat, chains: Chains, own: Owners, s: nat, n: nat)
    requires ChainsOk(fat, eoc, chains, own) && s < |chains| && n <= |chains[s]|
    ensures |Held(own, s, n)| == n
  {
    if n == 0 {
      assert Held(own, s, 0) == {};
    } else {
      HeldCardinal(fat, eoc, chains, own, s, n - 1);
      var c := chains[s][n - 1];
      assert Linked(fat, eoc, chains, own, s, n - 1);
      forall k | k in Held(own, s, n) ensures k in Held(own, s, n - 1) + {c} {
        assert Owned(chains, own[k], k);
      }
      assert Held(own, s, n) == Held(own, s, n - 1) + {c};
    }
  }

  ghost function HeldBelow(own: Owners, k: nat): set<nat>
  {
    set c | c in own && own[c].chain < k
  }

  lemma HeldBelowSplit(fat: seq<nat>, eoc: nat, chains: Chains, own: Owners, k: nat)
    requires ChainsOk(fat, eoc, chains, own) && k < |chains|
    ensures HeldBelow(own, k + 1) == HeldBelow(own, k) + Held(own, k, |chains[k]|)
    ensures HeldBelow(own, k) !! Held(own, k, |chains[k]|)
  {
    forall c | c in HeldBelow(own, k + 1) ensures c in HeldBelow(own, k) + Held(own, k, |chains[k]|) {
      assert Owned(chains, own[c], c);
    }
  }

  lemma {:induction false} OwnersCardinal(fat: seq<nat>, eoc: nat, chains: Chains, own: Owners, k: nat)
    requires ChainsOk(fat, eoc, chains, own) && k <= |chains|
    ensures |HeldBelow(own, k)| == TotalLength(chains[..k])
  {
    if k > 0 {
      OwnersCardinal(fat, eoc, chains, own, k - 1);
      HeldCardinal(fat, eoc, chains, own, k - 1, |chains[k - 1]|);
      HeldBelowSplit(fat, eoc, chains, own, k - 1);
      assert chains[..k][..k - 1] == chains[..k - 1];
    }
  }

  /** Nothing leaks: the clusters in use are those of the chains, each counted once. */
  lemma UsedIsTotalLength(fat: seq<nat>, eoc: nat, chains: Chains, own: Owners)
    requires ChainsOk(fat, eoc, chains, own)
    ensures Used(fat, |fat|) == TotalLength(chains)
  {
    UsedIsCardinal(fat, |fat|);
    OwnersCardinal(fat, eoc, chains, own, |chains|);
    assert chains[..|chains|] == chains;
    forall c | c in own ensures c in UsedSet(fat, |fat|) && c in HeldBelow(own, |chains|) {
      assert Owned(chains, own[c], c);
      assert Linked(fat, eoc, chains, own, own[c].chain, own[c].pos);
    }
    assert UsedSet(fat, |fat|) == HeldBelow(own, |chains|);
  }

  lemma {:induction false} TotalLengthSplit(chains: Chains, k: nat)
    requires k <= |chains|
    ensures TotalLength(chains) == TotalLength(chains[..k]) + TotalLength(chains[k..])
  {
    if k == |chains| {
      assert chains[..k] == chains && chains[k..] == [];
    } else {
      var init := chains[..|chains| - 1];
      TotalLengthSplit(init, k);
      assert init[..k] == chains[..k] && init[k..] == chains[k..][..|chains| - k - 1];
    }
  }

  lemma TotalLengthNone(chains: Chains)
    ensures TotalLength(chains + [[]]) == TotalLength(chains)
  {
    assert (chains + [[]])[..|chains|] == chains;
  }

  /** A chain of no clusters may always be added. */
  lemma EmptyChainAdded(fat: seq<nat>, eoc: nat, chains: Chains, own: Owners)
    requires ChainsOk(fat, eoc, chains, own)
    ensures ChainsOk(fat, eoc, chains + [[]], own)
  {
    var chains' := chains + [[]];
    forall s: nat, i: nat | s < |chains'| && i < |chains'[s]| ensures Linked(fat, eoc, chains', own, s, i) {
      assert Linked(fat, eoc, chains, own, s, i);
    }
    forall c | c in own ensures Owned(chains', own[c], c) {
      assert Owned(chains, own[c], c);
    }
  }

  lemma UsedBound(fat: seq<nat>, k: nat)
    requires 2 <= k <= |fat|
    ensures Used(fat, k) <= k - 2
  {
  }

  lemma ChainWithinTotal(chains: Chains, x: nat)
    requires x < |chains|
    ensures |chains[x]| <= TotalLength(chains)
  {
    if x < |chains| - 1 { ChainWithinTotal(chains[..|chains| - 1], x); }
  }

  /** A chain is no longer than the number of clusters, so the loop guards of the driver never cut it short. */
  lemma ChainFits(fat: seq<nat>, eoc: nat, chains: Chains, own: Owners, x: nat)
    requires ChainsOk(fat, eoc, chains, own) && x < |chains|
    ensures |chains[x]| <= |fat| - 2
  {
    UsedIsTotalLength(fat, eoc, chains, own);
    UsedBound(fat, |fat|);
    ChainWithinTotal(chains, x);
  }

  /** A chain is determined by the table and its first cluster. */
  lemma {:induction false} ChainUnique(fat: seq<nat>, eoc: nat, a: Chains, ownA: Owners, b: Chains, ownB: Owners,
      s: nat, i: nat)
    requires ChainsOk(fat, eoc, a, ownA) && ChainsOk(fat, eoc, b, ownB) && s < |a| && s < |b|
    requires a[s] != [] && b[s] != [] && a[s][0] == b[s][0]
    requires i < |a[s]|
    ensures i < |b[s]| && a[s][i] == b[s][i]
  {
    if i > 0 {
      ChainUnique(fat, eoc, a, ownA, b, ownB, s, i - 1);
      assert Linked(fat, eoc, a, ownA, s, i - 1) && Linked(fat, eoc, b, ownB, s, i - 1) &&
             Linked(fat, eoc, a, ownA, s, i);
    }
  }

  lemma {:induction false} UsedUpdate(fat: seq<nat>, k: nat, c: nat, v: nat)
    requires k <= |fat| && 2 <= c < |fat|
    ensures Used(fat[c := v], k) ==
            Used(fat, k) + if c < k then (if v != 0 then 1 else 0) - (if fat[c] != 0 then 1 else 0) else 0
  {
    if k > 2 { UsedUpdate(fat, k - 1, c, v); }
  }

  lemma {:induction false} TotalLengthUpdate(chains: Chains, x: nat, c: seq<nat>)
    requires x < |chains|
    ensures TotalLength(chains[x := c]) == TotalLength(chains) - |chains[x]| + |c|
  {
    var n := |chains| - 1;
    if x < n {
      TotalLengthUpdate(chains[..n], x, c);
      assert chains[x := c][..n] == chains[..n][x := c];
    } else {
      assert chains[x := c][..n] == chains[..n];
    }
  }

  /** Freeing a chain gives back exactly its clusters. */
  lemma FreedCount(fat: seq<nat>, eoc: nat, chains: Chains, own: Owners, x: nat, fat': seq<nat>)
    requires ChainsOk(fat, eoc, chains, own) && x < |chains|
    requires Freed(fat, fat', own, x, |chains[x]|)
    ensures Used(fat', |fat'|) == Used(fat, |fat|) - |chains[x]|
  {
    hide ChainsOk, Freed, Used, TotalLength;
    FreeChain(fat, eoc, chains, own, x, fat');
    UsedIsTotalLength(fat, eoc, chains, own);
    UsedIsTotalLength(fat', eoc, chains[x := []], Without(own, x));
    TotalLengthUpdate(chains, x, []);
  }
}
