/**
 The total supply, and what it rules out.
 */
module Supply {
  import opened Types
  import opened Ledger

  /** The sum of all balances. */
  ghost function Total(s: Balances): nat
    decreases |s|
  {
    if s == map[] then 0
    else
      assert s.Keys != {};
      var a :| a in s;
      assert (s - {a}).Keys == s.Keys - {a};
      s[a] + Total(s - {a})
  }

  /** Any entry can be taken out of the sum first. */
  lemma {:induction false} TotalSplit(s: Balances, a: Address)
    requires a in s
    ensures Total(s) == s[a] + Total(s - {a})
    decreases |s|
  {
    assert s.Keys != {};
    var b :| b in s && Total(s) == s[b] + Total(s - {b});
    if b != a {
      assert (s - {b}).Keys == s.Keys - {b} && (s - {a}).Keys == s.Keys - {a};
      TotalSplit(s - {b}, a);
      TotalSplit(s - {a}, b);
      assert s - {b} - {a} == s - {a} - {b};
    }
  }

  lemma TotalUpdate(s: Balances, a: Address, x: Amount)
    ensures Total(s[a := x]) == Total(s) - BalanceOf(s, a) + x
  {
    TotalSplit(s[a := x], a);
    assert s[a := x] - {a} == s - {a};
    if a in s {
      TotalSplit(s, a);
    } else {
      assert s - {a} == s;
    }
  }

  lemma TotalWithout(s: Balances, a: Address)
    ensures Total(s) == Total(s - {a}) + BalanceOf(s, a)
  {
    if a in s {
      TotalSplit(s, a);
    } else {
      assert s - {a} == s;
    }
  }

  lemma {:induction false} ZeroTotal(t: Balances)
    requires forall a :: BalanceOf(t, a) == 0
    ensures Total(t) == 0
    decreases |t|
  {
    if t != map[] {
      assert t.Keys != {};
      var a :| a in t;
      TotalSplit(t, a);
      assert (t - {a}).Keys == t.Keys - {a};
      assert forall b :: b in t - {a} ==> BalanceOf(t, b) == 0;
      ZeroTotal(t - {a});
      assert BalanceOf(t, a) == 0;
    }
  }

  lemma BalanceWithinTotal(s: Balances, a: Address)
    ensures BalanceOf(s, a) <= Total(s)
  {
    if a in s {
      TotalSplit(s, a);
    }
  }

  /** A transfer moves supply, it never makes or destroys any. */
  lemma PayConserves(s: Balances, p: Payment)
    ensures Pay(s, p).Ok? ==> Total(Pay(s, p).value) == Total(s)
  {
    if Pay(s, p).Ok? {
      var fromBalance, toBalance := BalanceOf(s, p.from), BalanceOf(s, p.to);
      if p.from == p.to {
        TotalUpdate(s, p.from, fromBalance);
      } else {
        TotalUpdate(s, p.from, fromBalance - p.amount);
        TotalUpdate(s[p.from := fromBalance - p.amount], p.to, toBalance + p.amount);
      }
    }
  }

  lemma {:induction false} PayAllConserves(s: Balances, ps: seq<Payment>)
    ensures PayAll(s, ps).Ok? ==> Total(PayAll(s, ps).value) == Total(s)
    decreases |ps|
  {
    if ps != [] {
      PayConserves(s, ps[0]);
      if Pay(s, ps[0]).Ok? {
        PayAllConserves(Pay(s, ps[0]).value, ps[1..]);
      }
    }
  }

  /** Conservation: executing a block, call bundles included, keeps the total supply. */
  lemma {:induction false} BlockConserves(start: Balances, block: seq<seq<Payment>>, k: nat)
    requires k <= |block|
    ensures Total(StateAfter(start, block, k)) == Total(start)
  {
    if k > 0 {
      BlockConserves(start, block, k - 1);
      PayAllConserves(StateAfter(start, block, k - 1), block[k - 1]);
    }
  }

  /** With the supply at or below half of `u128::MAX`, no transfer overflows, self-transfers included. */
  lemma PayNeverOverflows(s: Balances, p: Payment)
    requires 2 * Total(s) <= U128_MAX
    ensures Pay(s, p) != Err(AmountOverflow)
  {
    BalanceWithinTotal(s, p.from);
    BalanceWithinTotal(s, p.to);
  }

  lemma {:induction false} PayAllNeverOverflows(s: Balances, ps: seq<Payment>)
    requires 2 * Total(s) <= U128_MAX
    ensures PayAll(s, ps) != Err(AmountOverflow)
    decreases |ps|
  {
    if ps != [] {
      PayNeverOverflows(s, ps[0]);
      PayConserves(s, ps[0]);
      if Pay(s, ps[0]).Ok? {
        PayAllNeverOverflows(Pay(s, ps[0]).value, ps[1..]);
      }
    }
  }

  /** The state after running a whole chain of blocks, each with its own contracts. */
  function ChainState(start: Balances, chain: seq<(seq<Intent>, Registry)>): Balances {
    if chain == [] then start
    else
      var before := ChainState(start, chain[..|chain| - 1]);
      RunBlock(before, chain[|chain| - 1].0, chain[|chain| - 1].1).0
  }

  lemma {:induction false} ChainConserves(start: Balances, chain: seq<(seq<Intent>, Registry)>)
    ensures Total(ChainState(start, chain)) == Total(start)
  {
    if chain != [] {
      var before := ChainState(start, chain[..|chain| - 1]);
      ChainConserves(start, chain[..|chain| - 1]);
      var (block, registry) := chain[|chain| - 1];
      BlockConserves(before, BlockPayments(block, before, registry), |block|);
    }
  }

  /** Intent `i` of a block, run after a chain, is refused with `AmountOverflow`. */
  predicate Overflows(start: Balances, chain: seq<(seq<Intent>, Registry)>, block: seq<Intent>, registry: Registry, i: nat) {
    i < |block| && RunBlock(ChainState(start, chain), block, registry).1[i] == Rejected(AmountOverflow)
  }

  /** However long the chain, supply at or below half of `u128::MAX` means `AmountOverflow` never occurs. */
  lemma NoOverflowEver(start: Balances, chain: seq<(seq<Intent>, Registry)>, block: seq<Intent>, registry: Registry, i: nat)
    requires 2 * Total(start) <= U128_MAX
    ensures !Overflows(start, chain, block, registry, i)
  {
    if i < |block| {
      var s := ChainState(start, chain);
      var ps := BlockPayments(block, s, registry);
      ChainConserves(start, chain);
      BlockConserves(s, ps, i);
      PayAllNeverOverflows(StateAfter(s, ps, i), ps[i]);
    }
  }

  const NO_CONTRACTS: Registry := map[]

  lemma RunTransfer(s: Balances, p: Payment)
    ensures RunBlock(s, [Transfer(p.from, p.to, p.amount)], NO_CONTRACTS) ==
            match Pay(s, p)
            case Ok(s') => (s', [Committed])
            case Err(r) => (s, [Rejected(r)])
  {
    var block := [Transfer(p.from, p.to, p.amount)];
    var ps := BlockPayments(block, s, NO_CONTRACTS);
    assert ps[0] == [p];
    assert PayAll(s, [p]) == Pay(s, p) by {
      if Pay(s, p).Ok? {
        assert [p][1..] == [];
      }
    }
    assert StateAfter(s, ps, 0) == s;
    assert StateAfter(s, ps, 1) == Apply(s, [p]).0;
    assert RunBlock(s, block, NO_CONTRACTS).1 == [OutcomeOf(s, ps, 0)];
  }

  /** Everyone but `a` who holds something. */
  function Holders(s: Balances, a: Address): set<Address> {
    set b | b in s && b != a && s[b] > 0
  }

  lemma SoleHolder(s: Balances, a: Address)
    requires Holders(s, a) == {}
    ensures BalanceOf(s, a) == Total(s)
  {
    TotalWithout(s, a);
    forall b ensures BalanceOf(s - {a}, b) == 0 {
      assert b !in Holders(s, a);
    }
    ZeroTotal(s - {a});
  }

  /** Moving all of `b`'s balance to `a` takes `b`, and nobody else, off the list of holders. */
  lemma CollectFrom(s: Balances, a: Address, b: Address)
    requires b in Holders(s, a) && Pay(s, Payment(b, a, s[b])).Ok?
    ensures Holders(Pay(s, Payment(b, a, s[b])).value, a) == Holders(s, a) - {b}
  {
  }

  lemma TransferOverflows(start: Balances, chain: seq<(seq<Intent>, Registry)>, p: Payment)
    requires Pay(ChainState(start, chain), p) == Err(AmountOverflow)
    ensures Overflows(start, chain, [Transfer(p.from, p.to, p.amount)], NO_CONTRACTS, 0)
  {
    RunTransfer(ChainState(start, chain), p);
  }

  lemma TransferExtends(start: Balances, chain: seq<(seq<Intent>, Registry)>, p: Payment)
    requires Pay(ChainState(start, chain), p).Ok?
    ensures ChainState(start, chain + [([Transfer(p.from, p.to, p.amount)], NO_CONTRACTS)])
         == Pay(ChainState(start, chain), p).value
  {
    var longer := chain + [([Transfer(p.from, p.to, p.amount)], NO_CONTRACTS)];
    assert longer[..|longer| - 1] == chain;
    RunTransfer(ChainState(start, chain), p);
  }

  /** Above the bound, moving every balance to one account and then sending it to itself overflows somewhere. */
  lemma {:induction false} CollectOverflows(start: Balances, chain: seq<(seq<Intent>, Registry)>, a: Address)
    returns (chain': seq<(seq<Intent>, Registry)>, block: seq<Intent>)
    requires 2 * Total(start) > U128_MAX
    ensures Overflows(start, chain', block, NO_CONTRACTS, 0)
    decreases |Holders(ChainState(start, chain), a)|
  {
    var s := ChainState(start, chain);
    var holders := Holders(s, a);
    var b := a;
    if holders == {} {
      ChainConserves(start, chain);
      SoleHolder(s, a);
    } else {
      b :| b in holders;
    }
    var p := Payment(b, a, BalanceOf(s, b));
    if Pay(s, p).Err? {
      TransferOverflows(start, chain, p);
      chain', block := chain, [Transfer(p.from, p.to, p.amount)];
    } else {
      TransferExtends(start, chain, p);
      CollectFrom(s, a, b);
      chain', block := CollectOverflows(start, chain + [([Transfer(p.from, p.to, p.amount)], NO_CONTRACTS)], a);
    }
  }

  /** The exact bound: no run of any length overflows if and only if the supply is at most half of `u128::MAX`. */
  lemma OverflowFreeIff(start: Balances)
    ensures 2 * Total(start) <= U128_MAX
       <==> forall chain, block, registry, i :: !Overflows(start, chain, block, registry, i)
  {
    if 2 * Total(start) <= U128_MAX {
      forall chain, block, registry, i ensures !Overflows(start, chain, block, registry, i) {
        NoOverflowEver(start, chain, block, registry, i);
      }
    } else {
      var chain, block := CollectOverflows(start, [], Address(seq(20, _ => 0)));
    }
  }
}
