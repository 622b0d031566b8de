/**
 The commitment to a balance map: the root of the trie over its entries, in any order.
 */
module StateRoots {
  import opened Types
  import opened Trie
  import opened TrieProof

  function SlotsOf(m: Balances): map<Address, Slot> {
    map a | a in m :: Slot(m[a], 0)
  }

  /** A listing of a balance map, in some order, as the state hands it to the tree. */
  ghost predicate Lists(es: seq<(Address, Slot)>, m: Balances) {
    MapOf(es) == SlotsOf(m)
  }

  lemma {:induction false} ListingExists(m: Balances)
    ensures exists es :: Lists(es, m)
    decreases |m|
  {
    if m == map[] {
      assert Lists([], m);
    } else {
      assert m.Keys != {};
      var a :| a in m;
      var rest := m - {a};
      assert rest.Keys == m.Keys - {a};
      ListingExists(rest);
      var es :| Lists(es, rest);
      var all := es + [(a, Slot(m[a], 0))];
      assert all[..|all| - 1] == es;
      assert MapOf(all) == SlotsOf(m);
      assert Lists(all, m);
    }
  }

  /** The tree of a balance map. */
  ghost function TreeOfBalances(m: Balances): Node {
    ListingExists(m);
    var es :| Lists(es, m);
    TreeOf(es)
  }

  ghost function StateRoot(h: Hash, m: Balances): Commitment {
    Commit(h, TreeOfBalances(m))
  }

  /** The listing order is irrelevant. */
  lemma AnyListing(es: seq<(Address, Slot)>, m: Balances)
    requires Lists(es, m)
    ensures TreeOf(es) == TreeOfBalances(m)
  {
    ListingExists(m);
    var chosen :| Lists(chosen, m) && TreeOfBalances(m) == TreeOf(chosen);
    CanonicalForm(es, chosen);
  }

  /** The tree of a balance map holds exactly its entries. */
  lemma TreeHoldsBalances(m: Balances, a: Address)
    ensures IsTree(TreeOfBalances(m))
    ensures GetPath(TreeOfBalances(m), a.bytes) == Lookup(SlotsOf(m), a)
  {
    ListingExists(m);
    var chosen :| Lists(chosen, m) && TreeOfBalances(m) == TreeOf(chosen);
    TreeRefinesMap(chosen, a);
  }

  lemma SameEntry(m1: Balances, m2: Balances, a: Address)
    requires SameTreeBalances(TreeOfBalances(m1), TreeOfBalances(m2))
    ensures a in m1 <==> a in m2
    ensures a in m1 && a in m2 ==> m1[a] == m2[a]
  {
    TreeHoldsBalances(m1, a);
    TreeHoldsBalances(m2, a);
    assert GetPath(TreeOfBalances(m1), a.bytes).Some? <==> GetPath(TreeOfBalances(m2), a.bytes).Some?;
  }

  /** Equal state roots mean equal states, or exhibit a collision. */
  lemma EqualRootsEqualStates(h: Hash, m1: Balances, m2: Balances)
    requires StateRoot(h, m1) == StateRoot(h, m2)
    ensures match TreeDiscrepancy(h, TreeOfBalances(m1), TreeOfBalances(m2))
            case Some(p) => IsCollision(h, p)
            case None => m1 == m2
  {
    var t1, t2 := TreeOfBalances(m1), TreeOfBalances(m2);
    RootBindsBalances(h, t1, t2);
    if TreeDiscrepancy(h, t1, t2).None? {
      forall a
        ensures a in m1 <==> a in m2
        ensures a in m1 && a in m2 ==> m1[a] == m2[a]
      {
        SameEntry(m1, m2, a);
      }
    }
  }

  lemma DifferentStatesCollide(h: Hash, m1: Balances, m2: Balances)
    requires m1 != m2 && StateRoot(h, m1) == StateRoot(h, m2)
    ensures var p := TreeDiscrepancy(h, TreeOfBalances(m1), TreeOfBalances(m2)); p.Some? && IsCollision(h, p.value)
  {
    EqualRootsEqualStates(h, m1, m2);
  }

  /** Rebuild the tree from the state and take its root. */
  method ComputeRoot(h: Hash, m: Balances) returns (root: Commitment)
    ensures root == StateRoot(h, m)
  {
    var tree := new StateTree();
    var todo := m.Keys;
    ghost var listed: seq<(Address, Slot)> := [];
    while todo != {}
      invariant todo <= m.Keys
      invariant tree.root == TreeOf(listed)
      invariant MapOf(listed) == map a | a in m && a !in todo :: Slot(m[a], 0)
      decreases todo
    {
      var a :| a in todo;
      tree.Update(a, Slot(m[a], 0));
      ghost var longer := listed + [(a, Slot(m[a], 0))];
      assert longer[..|longer| - 1] == listed;
      listed := longer;
      todo := todo - {a};
    }
    assert Lists(listed, m);
    AnyListing(listed, m);
    root := Commit(h, tree.root);
  }
}
