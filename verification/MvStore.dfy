/**
 The multi-version balance store: for every address, the balances that transactions have published, by index.
 The class is the mutable store behind the lock; the lemmas show that it behaves like one column per transaction.
 */
module MvStores {
  import opened Types
  import opened Occ

  type Versions = map<Address, map<nat, Amount>>

  /** Insert or overwrite the version of `a` at index `i`. */
  function WriteVersion(vs: Versions, a: Address, i: nat, x: Amount): Versions {
    vs[a := (if a in vs then vs[a] else map[])[i := x]]
  }

  /** Drop every version at index `i`, and every address left without versions. */
  function ClearVersions(vs: Versions, i: nat): Versions {
    map a | a in vs && vs[a] - {i} != map[] :: vs[a] - {i}
  }

  /** The highest version of `a` strictly below `bound`. */
  function HighestBelow(vs: Versions, a: Address, bound: nat): (w: Option<nat>)
    ensures w.Some? ==> w.value < bound && a in vs && w.value in vs[a]
    ensures a in vs ==> forall i :: (if w.Some? then w.value + 1 else 0) <= i < bound ==> i !in vs[a]
  {
    if bound == 0 || a !in vs then None
    else if bound - 1 in vs[a] then Some(bound - 1)
    else HighestBelow(vs, a, bound - 1)
  }

  ghost predicate IsLast(s: set<nat>, k: nat) {
    k in s && forall j :: j in s ==> j <= k
  }

  lemma {:induction false} LastExists(s: set<nat>)
    requires s != {}
    ensures exists k :: IsLast(s, k)
  {
    var x :| x in s;
    if s == {x} {
      assert IsLast(s, x);
    } else {
      LastExists(s - {x});
      var k :| IsLast(s - {x}, k);
      var top := if k < x then x else k;
      forall j | j in s ensures j <= top {
        assert j == x || j in s - {x};
      }
      assert IsLast(s, top);
    }
  }

  /** The version that survives the block. */
  ghost function Last(m: map<nat, Amount>): (x: Amount)
    requires m != map[]
  {
    LastExists(m.Keys);
    var k :| IsLast(m.Keys, k);
    m[k]
  }

  /** One balance per touched address: its highest version. */
  ghost function FinalWrites(vs: Versions): Balances {
    map a | a in vs && vs[a] != map[] :: Last(vs[a])
  }

  class MvStore {
    var versions: Versions

    constructor ()
      ensures versions == map[]
    {
      versions := map[];
    }

    /** The balance visible to `i` and where it comes from; falls through to the state. */
    method Read(state: Balances, a: Address, i: nat) returns (o: Observation)
      ensures o == ResolveVersion(versions, state, a, i)
    {
      var w := HighestBelow(versions, a, i);
      match w
      case Some(v) => o := Observation(ReadEntry(a, Version(v)), versions[a][v]);
      case None => o := Observation(ReadEntry(a, Snapshot), BalanceOf(state, a));
    }

    method Write(a: Address, x: Amount, i: nat)
      modifies this
      ensures versions == WriteVersion(old(versions), a, i, x)
    {
      var perAddress := if a in versions then versions[a] else map[];
      versions := versions[a := perAddress[i := x]];
    }

    method ClearWrites(i: nat)
      modifies this
      ensures versions == ClearVersions(old(versions), i)
    {
      var kept: Versions := map[];
      var todo := versions.Keys;
      while todo != {}
        invariant todo <= versions.Keys && versions == old(versions)
        invariant kept == map a | a in versions && a !in todo && versions[a] - {i} != map[] :: versions[a] - {i}
        decreases todo
      {
        var a :| a in todo;
        var rest := versions[a] - {i};
        if rest != map[] {
          kept := kept[a := rest];
        }
        todo := todo - {a};
      }
      versions := kept;
    }

    /** The surviving balance of every touched address. */
    method Finalise() returns (writes: Balances)
      ensures writes == FinalWrites(versions)
    {
      writes := map[];
      var todo := versions.Keys;
      while todo != {}
        invariant todo <= versions.Keys
        invariant writes == map a | a in versions && a !in todo && versions[a] != map[] :: Last(versions[a])
        decreases todo
      {
        var a :| a in todo;
        if versions[a] != map[] {
          var x := Highest(versions[a]);
          writes := writes[a := x];
        }
        todo := todo - {a};
      }
    }

    static method Highest(m: map<nat, Amount>) returns (x: Amount)
      requires m != map[]
      ensures x == Last(m)
    {
      assert m.Keys != {};
      var top :| top in m.Keys;
      var todo := m.Keys - {top};
      while todo != {}
        invariant top in m && todo <= m.Keys
        invariant forall j :: j in m && j !in todo ==> j <= top
        decreases todo
      {
        var j :| j in todo;
        if top < j { top := j; }
        todo := todo - {j};
      }
      assert IsLast(m.Keys, top);
      x := m[top];
    }
  }

  /** What a locked read returns. */
  function ResolveVersion(vs: Versions, state: Balances, a: Address, i: nat): Observation {
    var w := HighestBelow(vs, a, i);
    Observation(ReadEntry(a, Source(w)), if w.Some? then vs[a][w.value] else BalanceOf(state, a))
  }

  /** The validator as it runs: recorded sources against the highest writers in the store. */
  predicate IsValidIn(txn: Txn, vs: Versions) {
    forall k :: 0 <= k < |txn.readSet| ==>
      txn.readSet[k].source == Source(HighestBelow(vs, txn.readSet[k].addr, txn.idx))
  }

  // ---------------------------------------------------------------------------------------------
  // The store as columns
  // ---------------------------------------------------------------------------------------------

  function Column(vs: Versions, i: nat): Balances {
    map a | a in vs && i in vs[a] :: vs[a][i]
  }

  function ColumnsOf(vs: Versions, n: nat): (r: Columns)
    ensures |r| == n
  {
    seq(n, i requires 0 <= i < n => Column(vs, i))
  }

  /** Only indexes of the block occur, and no address is kept without versions. */
  ghost predicate Tidy(vs: Versions, n: nat) {
    forall a {:trigger vs[a]} :: a in vs ==> vs[a] != map[] && forall i :: i in vs[a] ==> i < n
  }

  lemma WriteRefines(vs: Versions, n: nat, a: Address, i: nat, x: Amount)
    requires Tidy(vs, n) && i < n
    ensures Tidy(WriteVersion(vs, a, i, x), n)
    ensures ColumnsOf(WriteVersion(vs, a, i, x), n) == WriteColumn(ColumnsOf(vs, n), i, a, x)
  {
    var vs' := WriteVersion(vs, a, i, x);
    assert i in vs'[a];
    forall j | 0 <= j < n
      ensures Column(vs', j) == if j == i then Column(vs, i)[a := x] else Column(vs, j)
    {
    }
  }

  lemma ClearRefines(vs: Versions, n: nat, i: nat)
    requires Tidy(vs, n) && i < n
    ensures Tidy(ClearVersions(vs, i), n)
    ensures ColumnsOf(ClearVersions(vs, i), n) == ColumnsOf(vs, n)[i := map[]]
  {
    var vs' := ClearVersions(vs, i);
    forall a, j | a in vs && j in vs[a] && j != i ensures a in vs' && j in vs'[a] {
      assert j in vs[a] - {i};
    }
    forall j | 0 <= j < n
      ensures Column(vs', j) == if j == i then map[] else Column(vs, j)
    {
    }
  }

  lemma {:induction false} HighestRefines(vs: Versions, n: nat, a: Address, bound: nat)
    requires bound <= n
    ensures HighestBelow(vs, a, bound) == HighestWriter(ColumnsOf(vs, n), a, bound)
  {
    if bound > 0 {
      assert a in ColumnsOf(vs, n)[bound - 1] <==> a in vs && bound - 1 in vs[a];
      HighestRefines(vs, n, a, bound - 1);
    }
  }

  /** A locked read returns what the column view returns. */
  lemma ReadRefines(vs: Versions, n: nat, state: Balances, a: Address, i: nat)
    requires i <= n
    ensures ResolveVersion(vs, state, a, i) == Resolve(ColumnsOf(vs, n), state, a, i)
  {
    HighestRefines(vs, n, a, i);
  }

  lemma ValidRefines(txn: Txn, vs: Versions, n: nat)
    requires txn.idx <= n
    ensures IsValidIn(txn, vs) <==> IsValid(txn, ColumnsOf(vs, n))
  {
    forall k | 0 <= k < |txn.readSet|
      ensures HighestBelow(vs, txn.readSet[k].addr, txn.idx) == HighestWriter(ColumnsOf(vs, n), txn.readSet[k].addr, txn.idx)
    {
      HighestRefines(vs, n, txn.readSet[k].addr, txn.idx);
    }
  }

  lemma {:induction false} ViewKeys(cols: Columns, base: Balances, i: nat, a: Address)
    requires i <= |cols|
    ensures a in View(cols, base, i) <==> a in base || HighestWriter(cols, a, i).Some?
  {
    if i > 0 && a !in cols[i - 1] {
      ViewKeys(cols, base, i - 1, a);
    }
  }

  lemma LastIsHighest(vs: Versions, n: nat, a: Address)
    requires Tidy(vs, n) && a in vs
    ensures HighestBelow(vs, a, n).Some? && vs[a][HighestBelow(vs, a, n).value] == Last(vs[a])
  {
    assert vs[a] != map[];
    LastExists(vs[a].Keys);
    var k :| IsLast(vs[a].Keys, k) && Last(vs[a]) == vs[a][k];
    assert k in vs[a];
    assert HighestBelow(vs, a, n) == Some(k);
  }

  /** Consolidating the store over the block-start state gives the view after the last transaction. */
  lemma FinaliseRefines(vs: Versions, n: nat, base: Balances)
    requires Tidy(vs, n)
    ensures base + FinalWrites(vs) == View(ColumnsOf(vs, n), base, n)
  {
    var cols, out := ColumnsOf(vs, n), base + FinalWrites(vs);
    var view := View(cols, base, n);
    forall a
      ensures a in out <==> a in view
      ensures a in out && a in view ==> out[a] == view[a]
    {
      ViewKeys(cols, base, n, a);
      ResolveReadsView(cols, base, a, n);
      HighestRefines(vs, n, a, n);
      if a in vs {
        LastIsHighest(vs, n, a);
      }
    }
  }

  /** A tidy store is determined by its columns. */
  lemma StoreIsItsColumns(vs: Versions, vs': Versions, n: nat)
    requires Tidy(vs, n) && Tidy(vs', n) && ColumnsOf(vs, n) == ColumnsOf(vs', n)
    ensures vs == vs'
  {
    forall a, i: nat
      ensures a in vs && i in vs[a] <==> a in vs' && i in vs'[a]
      ensures a in vs && i in vs[a] && a in vs' && i in vs'[a] ==> vs[a][i] == vs'[a][i]
    {
      if i < n {
        assert ColumnsOf(vs, n)[i] == Column(vs, i) && ColumnsOf(vs', n)[i] == Column(vs', i);
        assert a in Column(vs, i) <==> a in vs && i in vs[a];
        assert a in Column(vs', i) <==> a in vs' && i in vs'[a];
      }
    }
    forall a ensures a in vs <==> a in vs' {
      if a in vs {
        assert vs[a].Keys != {};
        var i :| i in vs[a];
      }
      if a in vs' {
        assert vs'[a].Keys != {};
        var i :| i in vs'[a];
      }
    }
    forall a | a in vs ensures vs[a] == vs'[a] {
    }
  }
}
