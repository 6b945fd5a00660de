/**
 * The size index of the object cache (dirac_cache.c), as values. Free objects
 * are kept in a search tree keyed by their byte footprint; each tree node
 * carries a peer chain of further free objects of the same footprint. Here the
 * tree is a map from footprint to its Entry: the tree node and its chain.
 *
 * Allocation takes the head of the chain, or the tree node itself once the
 * chain is empty; release makes the released object the tree node and pushes
 * the displaced node onto the front of the chain. So the objects of one
 * footprint are handed out in the order VendOrder(entry) = chain + [node].
 */
module SizeIndex {
  import opened DiracObject

  /** A tree node of the index together with its peer chain. */
  datatype Entry = Entry(node: Dirac, peers: seq<Dirac>)

  /** The order in which allocation hands out the objects of one entry. */
  function VendOrder(e: Entry): (s: seq<Dirac>)
    ensures |s| == |e.peers| + 1
    ensures s[0] == if e.peers == [] then e.node else e.peers[0]
    ensures s[|s| - 1] == e.node
  {
    e.peers + [e.node]
  }

  ghost predicate Distinct(s: seq<Dirac>) {
    forall i, j :: 0 <= i < j < |s| ==> s[i] != s[j]
  }

  /** Every object the index holds, as a tree node or a chain member. */
  ghost function Members(tree: map<nat, Entry>): set<Dirac> {
    set fp, b | fp in tree && b in VendOrder(tree[fp]) :: b
  }

  /**
   * The index holds each object once: no object appears twice in one entry,
   * and no object is filed under two footprints.
   */
  ghost predicate Disjoint(tree: map<nat, Entry>) {
    && (forall fp :: fp in tree ==> Distinct(VendOrder(tree[fp])))
    && (forall fp1, fp2, b ::
          fp1 in tree && fp2 in tree && b in VendOrder(tree[fp1]) && b in VendOrder(tree[fp2]) ==> fp1 == fp2)
  }

  /*****************************************************************************
   * The tree's ordering and search
   ****************************************************************************/

  /**
   * compare: orders two nodes by footprint alone, answering exactly -1, 0 or
   * 1 without subtracting (so the answer fits an int whatever the sizes).
   */
  function Compare(a: nat, b: nat): (r: int)
    ensures r == -1 || r == 0 || r == 1
    ensures r < 0 <==> a < b
    ensures r == 0 <==> a == b
    ensures r > 0 <==> a > b
  {
    if a < b then -1
    else if a > b then 1
    else 0
  }

  /** compare is antisymmetric and transitive: a total order on footprints. */
  lemma CompareTotalOrder(a: nat, b: nat, c: nat)
    ensures Compare(a, b) == -Compare(b, a)
    ensures Compare(a, b) <= 0 && Compare(b, c) <= 0 ==> Compare(a, c) <= 0
    ensures Compare(a, b) == 0 && Compare(b, c) == 0 ==> Compare(a, c) == 0
  {
  }

  /**
   * What one search of the tree for a footprint tells the caller: no node at
   * all (an empty tree), a node whose footprint compares unequal (the search
   * ended at a neighbour, rc != 0), or a node of exactly that footprint.
   */
  datatype Probe = NoNode | Unequal | Equal

  function Search(tree: map<nat, Entry>, fp: nat): (p: Probe)
    ensures p == NoNode <==> tree == map[]
    ensures p == Equal <==> fp in tree
  {
    if tree == map[] then NoNode
    else if fp in tree then Equal
    else Unequal
  }

  /*****************************************************************************
   * Allocation and release on the index
   ****************************************************************************/

  /**
   * The pop that allocation performs on an exact hit: the chain head, with its
   * successor promoted and the tree untouched; or, with an empty chain, the
   * tree node itself, removed from the tree.
   */
  function Withdraw(tree: map<nat, Entry>, fp: nat): (r: (Dirac, map<nat, Entry>))
    requires fp in tree
    ensures r.0 == VendOrder(tree[fp])[0]
    ensures fp in r.1 <==> |VendOrder(tree[fp])| > 1
    ensures fp in r.1 ==> VendOrder(r.1[fp]) == VendOrder(tree[fp])[1..]
    ensures r.1 - {fp} == tree - {fp}
  {
    var e := tree[fp];
    if e.peers == [] then (e.node, tree - {fp})
    else (e.peers[0], tree[fp := Entry(e.node, e.peers[1..])])
  }

  /**
   * The insert-or-replace that release performs: a new footprint gets a tree
   * node with an empty chain; an existing one gets the released object as its
   * tree node, and the displaced node becomes the head of the chain. The
   * released object is vended last of its footprint.
   */
  function Deposit(tree: map<nat, Entry>, fp: nat, b: Dirac): (r: map<nat, Entry>)
    ensures fp in r && r[fp].node == b
    ensures fp !in tree ==> VendOrder(r[fp]) == [b]
    ensures fp in tree ==> VendOrder(r[fp]) == [tree[fp].node] + tree[fp].peers + [b]
    ensures fp in tree ==> multiset(VendOrder(r[fp])) == multiset(VendOrder(tree[fp])) + multiset{b}
    ensures r - {fp} == tree - {fp}
  {
    if fp !in tree then tree[fp := Entry(b, [])]
    else tree[fp := Entry(b, [tree[fp].node] + tree[fp].peers)]
  }

  /*****************************************************************************
   * What the index holds
   ****************************************************************************/

  /** An object filed under some footprint is a member of the index. */
  lemma MemberOf(tree: map<nat, Entry>, k: nat, x: Dirac)
    requires k in tree && x in VendOrder(tree[k])
    ensures x in Members(tree)
  {
  }

  /** Withdrawing hands out an object the index held, and the index then holds all the others. */
  lemma WithdrawMembers(tree: map<nat, Entry>, fp: nat)
    requires fp in tree && Disjoint(tree)
    ensures Withdraw(tree, fp).0 in Members(tree)
    ensures Disjoint(Withdraw(tree, fp).1)
    ensures Members(Withdraw(tree, fp).1) == Members(tree) - {Withdraw(tree, fp).0}
  {
    var b := Withdraw(tree, fp).0;
    assert b in VendOrder(tree[fp]);
    MemberOf(tree, fp, b);
    WithdrawMembersWithin(tree, fp);
    WithdrawMembersKept(tree, fp);
    WithdrawDisjoint(tree, fp);
  }

  lemma WithdrawMembersWithin(tree: map<nat, Entry>, fp: nat)
    requires fp in tree && Disjoint(tree)
    ensures Members(Withdraw(tree, fp).1) <= Members(tree) - {Withdraw(tree, fp).0}
  {
    var (b, rest) := Withdraw(tree, fp);
    var v := VendOrder(tree[fp]);
    forall x | x in Members(rest)
      ensures x in Members(tree) && x != b
    {
      var k :| k in rest && x in VendOrder(rest[k]);
      SubEntry(tree, rest, fp, k, x);
      MemberOf(tree, k, x);
      if k == fp {
        var i :| 0 <= i < |v| - 1 && v[1..][i] == x;
        assert v[i + 1] == x;
        assert v[0] != v[i + 1];
      }
    }
  }

  lemma WithdrawMembersKept(tree: map<nat, Entry>, fp: nat)
    requires fp in tree
    ensures Members(tree) - {Withdraw(tree, fp).0} <= Members(Withdraw(tree, fp).1)
  {
    var (b, rest) := Withdraw(tree, fp);
    var v := VendOrder(tree[fp]);
    forall x | x in Members(tree) && x != b
      ensures x in Members(rest)
    {
      var k :| k in tree && x in VendOrder(tree[k]);
      if k == fp {
        var i :| 0 <= i < |v| && v[i] == x;
        assert i != 0;
        assert VendOrder(rest[fp])[i - 1] == x;
        MemberOf(rest, fp, x);
      } else {
        assert rest[k] == tree[k];
        MemberOf(rest, k, x);
      }
    }
  }

  lemma WithdrawDisjoint(tree: map<nat, Entry>, fp: nat)
    requires fp in tree && Disjoint(tree)
    ensures Disjoint(Withdraw(tree, fp).1)
  {
    var rest := Withdraw(tree, fp).1;
    var v := VendOrder(tree[fp]);
    forall k | k in rest
      ensures Distinct(VendOrder(rest[k]))
    {
      if k == fp {
        assert VendOrder(rest[k]) == v[1..];
      } else {
        assert rest[k] == tree[k];
      }
    }
    forall k1, k2, x | k1 in rest && k2 in rest && x in VendOrder(rest[k1]) && x in VendOrder(rest[k2])
      ensures k1 == k2
    {
      SubEntry(tree, rest, fp, k1, x);
      SubEntry(tree, rest, fp, k2, x);
    }
  }

  /** An object filed under k after a withdrawal was filed under k before it. */
  lemma SubEntry(tree: map<nat, Entry>, rest: map<nat, Entry>, fp: nat, k: nat, x: Dirac)
    requires fp in tree && rest == Withdraw(tree, fp).1
    requires k in rest && x in VendOrder(rest[k])
    ensures k in tree && x in VendOrder(tree[k])
  {
    if k == fp {
      var v := VendOrder(tree[fp]);
      var i :| 0 <= i < |v| - 1 && v[1..][i] == x;
      assert v[i + 1] == x;
    } else {
      assert rest[k] == tree[k];
    }
  }

  /** An object filed under k after a deposit was filed under k before it, or is the deposited one. */
  lemma DepositEntry(tree: map<nat, Entry>, fp: nat, b: Dirac, k: nat, x: Dirac)
    requires k in Deposit(tree, fp, b) && x in VendOrder(Deposit(tree, fp, b)[k])
    ensures x == b || (k in tree && x in VendOrder(tree[k]))
    ensures x == b ==> k == fp || (k in tree && x in VendOrder(tree[k]))
  {
    var r := Deposit(tree, fp, b);
    if k != fp {
      assert r[k] == tree[k];
    } else if x != b {
      assert x in multiset(VendOrder(r[fp]));
    }
  }

  /** Depositing an object the index does not hold adds exactly that object. */
  lemma DepositMembers(tree: map<nat, Entry>, fp: nat, b: Dirac)
    requires b !in Members(tree)
    ensures Members(Deposit(tree, fp, b)) == Members(tree) + {b}
  {
    DepositMembersWithin(tree, fp, b);
    DepositMembersKept(tree, fp, b);
  }

  lemma DepositMembersWithin(tree: map<nat, Entry>, fp: nat, b: Dirac)
    ensures Members(Deposit(tree, fp, b)) <= Members(tree) + {b}
  {
    var r := Deposit(tree, fp, b);
    forall x | x in Members(r)
      ensures x in Members(tree) || x == b
    {
      var k :| k in r && x in VendOrder(r[k]);
      DepositEntry(tree, fp, b, k, x);
      if x != b {
        MemberOf(tree, k, x);
      }
    }
  }

  lemma DepositMembersKept(tree: map<nat, Entry>, fp: nat, b: Dirac)
    ensures Members(tree) + {b} <= Members(Deposit(tree, fp, b))
  {
    var r := Deposit(tree, fp, b);
    assert b in VendOrder(r[fp]);
    MemberOf(r, fp, b);
    forall x | x in Members(tree)
      ensures x in Members(r)
    {
      var k :| k in tree && x in VendOrder(tree[k]);
      DepositKeeps(tree, fp, b, k, x);
      MemberOf(r, k, x);
    }
  }

  /** An object filed under k before a deposit is still filed under k after it. */
  lemma DepositKeeps(tree: map<nat, Entry>, fp: nat, b: Dirac, k: nat, x: Dirac)
    requires k in tree && x in VendOrder(tree[k])
    ensures k in Deposit(tree, fp, b) && x in VendOrder(Deposit(tree, fp, b)[k])
  {
    var r := Deposit(tree, fp, b);
    if k == fp {
      assert x in multiset(VendOrder(r[fp]));
    } else {
      assert r[k] == tree[k];
    }
  }

  /** Depositing an object the index does not hold keeps every object filed once. */
  lemma DepositDisjoint(tree: map<nat, Entry>, fp: nat, b: Dirac)
    requires Disjoint(tree) && b !in Members(tree)
    ensures Disjoint(Deposit(tree, fp, b))
  {
    var r := Deposit(tree, fp, b);
    forall k | k in r
      ensures Distinct(VendOrder(r[k]))
    {
      if k != fp {
        assert r[k] == tree[k];
      } else if fp in tree {
        DepositDistinct(tree, fp, b);
      }
    }
    forall k1, k2, x | k1 in r && k2 in r && x in VendOrder(r[k1]) && x in VendOrder(r[k2])
      ensures k1 == k2
    {
      DepositEntry(tree, fp, b, k1, x);
      DepositEntry(tree, fp, b, k2, x);
      if x != b {
        MemberOf(tree, k1, x);
      }
    }
  }

  lemma DepositDistinct(tree: map<nat, Entry>, fp: nat, b: Dirac)
    requires fp in tree && Distinct(VendOrder(tree[fp])) && b !in VendOrder(tree[fp])
    ensures Distinct(VendOrder(Deposit(tree, fp, b)[fp]))
  {
    var v := VendOrder(Deposit(tree, fp, b)[fp]);
    var o := VendOrder(tree[fp]);
    assert v == [o[|o| - 1]] + o[..|o| - 1] + [b];
    forall i, j | 0 <= i < j < |v|
      ensures v[i] != v[j]
    {
      if j == |v| - 1 {
        assert v[i] in o;
      } else if i == 0 {
        assert v[j] == o[j - 1];
      } else {
        assert v[i] == o[i - 1] && v[j] == o[j - 1];
      }
    }
  }

  /** Removing a whole entry leaves exactly the objects filed under the other footprints. */
  lemma RemoveEntryMembers(tree: map<nat, Entry>, fp: nat)
    requires fp in tree && Disjoint(tree)
    ensures Disjoint(tree - {fp})
    ensures forall x :: x in Members(tree - {fp}) <==> x in Members(tree) && x !in VendOrder(tree[fp])
    ensures Members(tree - {fp}) <= Members(tree)
  {
    var rest := tree - {fp};
    forall x
      ensures x in Members(rest) <==> x in Members(tree) && x !in VendOrder(tree[fp])
    {
      if x in Members(rest) {
        var k :| k in rest && x in VendOrder(rest[k]);
        assert rest[k] == tree[k];
      }
      if x in Members(tree) && x !in VendOrder(tree[fp]) {
        var k :| k in tree && x in VendOrder(tree[k]);
        assert rest[k] == tree[k];
      }
    }
    forall k | k in rest
      ensures Distinct(VendOrder(rest[k]))
    {
      assert rest[k] == tree[k];
    }
    forall k1, k2, x | k1 in rest && k2 in rest && x in VendOrder(rest[k1]) && x in VendOrder(rest[k2])
      ensures k1 == k2
    {
      assert rest[k1] == tree[k1] && rest[k2] == tree[k2];
    }
  }

  /*****************************************************************************
   * Round trips and the order of reuse
   ****************************************************************************/

  /**
   * A release followed by an allocation of the same footprint returns the
   * released object, and restores the index, exactly when nothing else of that
   * footprint was cached; otherwise it returns the node the release displaced.
   */
  lemma DepositThenWithdraw(tree: map<nat, Entry>, fp: nat, b: Dirac)
    ensures fp !in tree ==> Withdraw(Deposit(tree, fp, b), fp) == (b, tree)
    ensures fp in tree ==> Withdraw(Deposit(tree, fp, b), fp).0 == tree[fp].node
  {
    if fp !in tree {
      assert Deposit(tree, fp, b) - {fp} == tree;
    }
  }

  lemma RemoveAbsentKey(tree: map<nat, Entry>, fp: nat)
    requires fp !in tree
    ensures tree - {fp} == tree
  {
    assert (tree - {fp}).Keys == tree.Keys;
  }

  /** s backwards. */
  function Reverse(s: seq<Dirac>): (r: seq<Dirac>)
    ensures |r| == |s|
  {
    if s == [] then [] else [s[|s| - 1]] + Reverse(s[..|s| - 1])
  }

  lemma {:induction false} ReverseMultiset(s: seq<Dirac>)
    ensures multiset(Reverse(s)) == multiset(s)
  {
    if s != [] {
      ReverseMultiset(s[..|s| - 1]);
      assert s == s[..|s| - 1] + [s[|s| - 1]];
    }
  }

  /** Releases of bs[0], bs[1], ... in turn, all under footprint fp. */
  function DepositAll(tree: map<nat, Entry>, fp: nat, bs: seq<Dirac>): map<nat, Entry>
  {
    if bs == [] then tree
    else Deposit(DepositAll(tree, fp, bs[..|bs| - 1]), fp, bs[|bs| - 1])
  }

  /** n allocations in turn under footprint fp: the objects handed out and the index left. */
  function WithdrawAll(tree: map<nat, Entry>, fp: nat, n: nat): (r: (seq<Dirac>, map<nat, Entry>))
    requires n == 0 || (fp in tree && n <= |VendOrder(tree[fp])|)
    ensures |r.0| == n
    decreases n
  {
    if n == 0 then ([], tree)
    else
      var (b, rest) := Withdraw(tree, fp);
      var (bs, last) := WithdrawAll(rest, fp, n - 1);
      ([b] + bs, last)
  }

  /**
   * Releasing bs (non-empty) into a footprint the index does not hold makes
   * the last one the tree node and chains the others newest first.
   */
  lemma {:induction false} DepositAllShape(tree: map<nat, Entry>, fp: nat, bs: seq<Dirac>)
    requires fp !in tree && bs != []
    ensures fp in DepositAll(tree, fp, bs)
    ensures DepositAll(tree, fp, bs)[fp] == Entry(bs[|bs| - 1], Reverse(bs[..|bs| - 1]))
    ensures DepositAll(tree, fp, bs) - {fp} == tree - {fp}
  {
    var init := bs[..|bs| - 1];
    if init != [] {
      DepositAllShape(tree, fp, init);
      assert init[..|init| - 1] == bs[..|bs| - 2];
    }
  }

  /** Allocating as many objects as an entry holds hands them out in VendOrder and removes the entry. */
  lemma {:induction false} WithdrawAllOrder(tree: map<nat, Entry>, fp: nat)
    requires fp in tree
    ensures WithdrawAll(tree, fp, |VendOrder(tree[fp])|) == (VendOrder(tree[fp]), tree - {fp})
    decreases |tree[fp].peers|
  {
    var (b, rest) := Withdraw(tree, fp);
    var v := VendOrder(tree[fp]);
    var tail := WithdrawAll(rest, fp, |v| - 1);
    assert WithdrawAll(tree, fp, |v|) == ([b] + tail.0, tail.1);
    if fp in rest {
      assert |VendOrder(rest[fp])| == |v| - 1;
      WithdrawAllOrder(rest, fp);
      assert tail.0 == v[1..];
      assert [b] + v[1..] == v;
      assert (rest - {fp}) == tree - {fp};
    } else {
      assert |v| == 1 && v == [b];
      assert tail == ([], rest);
      RemoveAbsentKey(rest, fp);
      assert rest == tree - {fp};
      assert [b] + tail.0 == v;
    }
  }

  /**
   * Peer-chain exhaustion: release k objects of one footprint that was not
   * cached, then allocate k of it: the objects come back in the order
   * bs[k-2], ..., bs[0], bs[k-1] (each exactly once: a permutation of bs), and
   * the index is as it was before the releases.
   */
  lemma PeerChainExhaustion(tree: map<nat, Entry>, fp: nat, bs: seq<Dirac>)
    requires fp !in tree && bs != []
    ensures fp in DepositAll(tree, fp, bs)
    ensures |VendOrder(DepositAll(tree, fp, bs)[fp])| == |bs|
    ensures WithdrawAll(DepositAll(tree, fp, bs), fp, |bs|)
            == (Reverse(bs[..|bs| - 1]) + [bs[|bs| - 1]], tree)
    ensures multiset(WithdrawAll(DepositAll(tree, fp, bs), fp, |bs|).0) == multiset(bs)
  {
    var d := DepositAll(tree, fp, bs);
    var init, last := bs[..|bs| - 1], bs[|bs| - 1];
    DepositAllShape(tree, fp, bs);
    var v := VendOrder(d[fp]);
    assert v == Reverse(init) + [last];
    WithdrawAllOrder(d, fp);
    RemoveAbsentKey(tree, fp);
    assert d - {fp} == tree;
    assert WithdrawAll(d, fp, |bs|) == (v, tree);
    ReverseMultiset(init);
    assert bs == init + [last];
    assert multiset(v) == multiset(bs);
  }
}
