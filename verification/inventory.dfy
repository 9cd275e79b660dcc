/** The prize inventory: rows of the `prizes` table, the weighted pool a spin
    draws from, the totals the index and admin pages show, and the decrement a
    winning spin applies. */
module Inventory {

  /** One row of the `prizes` table. Amount and quantity are plain integers:
      the admin form inserts whatever it is given, negative values included. */
  datatype Prize = Prize(id: int, amount: int, quantity: int)

  /** The (amount, quantity) tiers inserted when the `prizes` table is empty at start-up. */
  const DefaultTiers: seq<(int, int)> :=
    [(1000, 10), (1500, 8), (2000, 5), (2500, 4), (3000, 3), (4000, 1), (5000, 1)]

  /** Rows are kept in insertion order, and AUTOINCREMENT ids increase along the table. */
  predicate TiersOrdered(ps: seq<Prize>)
  {
    forall i, j :: 0 <= i < j < |ps| ==> ps[i].id < ps[j].id
  }

  predicate AllNonNegative(ps: seq<Prize>)
  {
    forall i :: 0 <= i < |ps| ==> ps[i].quantity >= 0
  }

  // ---------------------------------------------------------------------------
  // The weighted pool
  // ---------------------------------------------------------------------------

  /** `[a for _ in range(n)]`: n copies of a, and none when n is not positive. */
  function Repeat(a: int, n: int): (r: seq<int>)
    ensures |r| == if n > 0 then n else 0
    ensures forall x :: x in r ==> x == a
    decreases n
  {
    if n <= 0 then [] else [a] + Repeat(a, n - 1)
  }

  /** The rows of `SELECT * FROM prizes WHERE quantity > 0`, in table order. */
  function Available(ps: seq<Prize>): (r: seq<Prize>)
    ensures |r| <= |ps|
    ensures forall p :: p in r <==> p in ps && p.quantity > 0
  {
    if ps == [] then []
    else
      assert ps == [ps[0]] + ps[1..];
      (if ps[0].quantity > 0 then [ps[0]] else []) + Available(ps[1..])
  }

  /** The weighted list of a sequence of tiers: each tier contributes
      `quantity` copies of its `amount`, tier after tier in table order. */
  function Weighted(ps: seq<Prize>): (r: seq<int>)
    ensures forall x :: x in r ==> exists i :: 0 <= i < |ps| && ps[i].amount == x && ps[i].quantity > 0
  {
    if ps == [] then []
    else
      assert forall i :: 1 <= i < |ps| ==> ps[i] == ps[1..][i - 1];
      Repeat(ps[0].amount, ps[0].quantity) + Weighted(ps[1..])
  }

  /** The pool a spin draws from: the weighted list of the available tiers.
      Every entry is the amount of a tier with stock left, and there are as
      many entries as the positive quantities add up to. */
  function Pool(ps: seq<Prize>): (r: seq<int>)
    ensures forall x :: x in r ==> exists i :: 0 <= i < |ps| && ps[i].amount == x && ps[i].quantity > 0
    ensures |r| == TotalQuantity(Available(ps))
  {
    var av := Available(ps);
    assert AllNonNegative(av) by {
      forall i | 0 <= i < |av| ensures av[i].quantity >= 0 {
        assert av[i] in av;
      }
    }
    WeightedLength(av);
    Weighted(av)
  }

  // ---------------------------------------------------------------------------
  // Totals
  // ---------------------------------------------------------------------------

  /** `SUM(quantity)` over every row, negative quantities included; 0 for an
      empty table, as the `or 0` fallback makes it. */
  /** `SUM(quantity)` over every row, negative quantities included; 0 for an
      empty table, as the `or 0` fallback makes it. */
  function TotalQuantity(ps: seq<Prize>): int
  {
    if ps == [] then 0 else ps[0].quantity + TotalQuantity(ps[1..])
  }

  /** `sum(amount * quantity)` over every row: the money the inventory represents. */
  function TotalValue(ps: seq<Prize>): int
  {
    if ps == [] then 0 else ps[0].amount * ps[0].quantity + TotalValue(ps[1..])
  }

  /** Units of one amount in stock: the positive quantities of the tiers with
      that amount. There is stock exactly when some such tier has units left. */
  function StockOf(ps: seq<Prize>, a: int): (r: int)
    ensures r >= 0
    ensures r > 0 <==> exists i :: 0 <= i < |ps| && ps[i].amount == a && ps[i].quantity > 0
  {
    if ps == [] then 0
    else
      assert forall i :: 1 <= i < |ps| ==> ps[i] == ps[1..][i - 1];
      (if ps[0].amount == a && ps[0].quantity > 0 then ps[0].quantity else 0) + StockOf(ps[1..], a)
  }

  /** The number of rows `WHERE amount = a AND quantity > 0` selects. */
  function Matching(ps: seq<Prize>, a: int): (r: nat)
    ensures r > 0 <==> exists i :: 0 <= i < |ps| && ps[i].amount == a && ps[i].quantity > 0
    ensures r <= |ps|
  {
    if ps == [] then 0
    else
      assert forall i :: 1 <= i < |ps| ==> ps[i] == ps[1..][i - 1];
      (if ps[0].amount == a && ps[0].quantity > 0 then 1 else 0) + Matching(ps[1..], a)
  }

  function Sum(xs: seq<int>): int
  {
    if xs == [] then 0 else xs[0] + Sum(xs[1..])
  }

  // ---------------------------------------------------------------------------
  // Table updates
  // ---------------------------------------------------------------------------

  /** `UPDATE prizes SET quantity=quantity-1 WHERE amount=won AND quantity>0`:
      every tier with the won amount and stock left loses one unit, every other
      row is untouched, and no quantity is driven below zero. */
  function Decrement(ps: seq<Prize>, won: int): (r: seq<Prize>)
    ensures |r| == |ps|
    ensures forall i :: 0 <= i < |ps| && ps[i].amount == won && ps[i].quantity > 0 ==>
              r[i] == ps[i].(quantity := ps[i].quantity - 1)
    ensures forall i :: 0 <= i < |ps| && !(ps[i].amount == won && ps[i].quantity > 0) ==>
              r[i] == ps[i]
    ensures forall i :: 0 <= i < |ps| && ps[i].quantity >= 0 ==> r[i].quantity >= 0
    ensures forall i :: 0 <= i < |ps| ==> r[i].id == ps[i].id && r[i].amount == ps[i].amount
  {
    if ps == [] then []
    else
      var head := if ps[0].amount == won && ps[0].quantity > 0
                  then ps[0].(quantity := ps[0].quantity - 1) else ps[0];
      [head] + Decrement(ps[1..], won)
  }

  /** `DELETE FROM prizes WHERE id=?`: drops the rows with that id and keeps the
      rest in order. */
  function RemoveTier(ps: seq<Prize>, id: int): (r: seq<Prize>)
    ensures |r| <= |ps|
    ensures forall p :: p in r <==> p in ps && p.id != id
  {
    if ps == [] then []
    else
      assert ps == [ps[0]] + ps[1..];
      (if ps[0].id == id then [] else [ps[0]]) + RemoveTier(ps[1..], id)
  }

  /** The spin's UPDATE keeps ids, and with them the table order. */
  lemma DecrementKeepsOrder(ps: seq<Prize>, won: int, next: int)
    requires TiersOrdered(ps)
    requires forall i :: 0 <= i < |ps| ==> ps[i].id < next
    ensures TiersOrdered(Decrement(ps, won))
    ensures forall i :: 0 <= i < |ps| ==> Decrement(ps, won)[i].id < next
  {
  }

  /** Deleting tiers keeps the remaining ids increasing. */
  lemma {:induction false} RemoveTierKeepsOrder(ps: seq<Prize>, id: int)
    requires TiersOrdered(ps)
    ensures TiersOrdered(RemoveTier(ps, id))
  {
    if ps != [] {
      var rest := RemoveTier(ps[1..], id);
      assert TiersOrdered(ps[1..]);
      RemoveTierKeepsOrder(ps[1..], id);
      forall p | p in rest ensures ps[0].id < p.id {
        assert p in ps[1..];
        var k :| 0 <= k < |ps[1..]| && ps[1..][k] == p;
        assert ps[k + 1] == p;
      }
    }
  }

  /** The rows init_db inserts into an empty `prizes` table whose next id is `start`. */
  function SeedRows(start: int): (r: seq<Prize>)
    ensures |r| == |DefaultTiers|
    ensures forall i :: 0 <= i < |r| ==>
              r[i] == Prize(start + i, DefaultTiers[i].0, DefaultTiers[i].1)
  {
    seq(|DefaultTiers|, i requires 0 <= i < |DefaultTiers| =>
      Prize(start + i, DefaultTiers[i].0, DefaultTiers[i].1))
  }

  // ---------------------------------------------------------------------------
  // Lemmas: what the pool is
  // ---------------------------------------------------------------------------

  lemma {:induction false} WeightedAppend(a: seq<Prize>, b: seq<Prize>)
    ensures Weighted(a + b) == Weighted(a) + Weighted(b)
  {
    if a == [] {
      assert a + b == b;
    } else {
      assert (a + b)[1..] == a[1..] + b;
      WeightedAppend(a[1..], b);
    }
  }

  /** The `WHERE quantity > 0` filter does not change the pool: a tier with no
      stock contributes `range` of a non-positive count, which is empty. */
  lemma {:induction false} PoolIsWeighted(ps: seq<Prize>)
    ensures Pool(ps) == Weighted(ps)
  {
    if ps != [] {
      PoolIsWeighted(ps[1..]);
      var head := if ps[0].quantity > 0 then [ps[0]] else [];
      assert Available(ps) == head + Available(ps[1..]);
      WeightedAppend(head, Available(ps[1..]));
      if ps[0].quantity > 0 {
        assert Weighted(head) == Repeat(ps[0].amount, ps[0].quantity) + Weighted([]);
      } else {
        assert Repeat(ps[0].amount, ps[0].quantity) == [];
      }
    }
  }

  /** Adding a tier at the end of the table extends the pool at the end. */
  lemma {:induction false} PoolAppend(ps: seq<Prize>, p: Prize)
    ensures Pool(ps + [p]) == Pool(ps) + Repeat(p.amount, p.quantity)
  {
    PoolIsWeighted(ps + [p]);
    PoolIsWeighted(ps);
    WeightedAppend(ps, [p]);
    assert Weighted([p]) == Repeat(p.amount, p.quantity) + Weighted([]);
  }

  lemma {:induction false} RepeatCount(x: int, n: int, a: int)
    ensures multiset(Repeat(x, n))[a] == if x == a && n > 0 then n else 0
    decreases n
  {
    if n > 0 {
      RepeatCount(x, n - 1, a);
      assert Repeat(x, n) == [x] + Repeat(x, n - 1);
    }
  }

  lemma {:induction false} WeightedCount(ps: seq<Prize>, a: int)
    ensures multiset(Weighted(ps))[a] == StockOf(ps, a)
  {
    if ps != [] {
      WeightedCount(ps[1..], a);
      RepeatCount(ps[0].amount, ps[0].quantity, a);
    }
  }

  /** The weighting: amount `a` occupies exactly as many entries of the pool as
      there are units of `a` in stock, so a uniform draw from the pool picks `a`
      with probability StockOf(ps, a) / |Pool(ps)|. */
  lemma {:induction false} PoolCount(ps: seq<Prize>, a: int)
    ensures multiset(Pool(ps))[a] == StockOf(ps, a)
  {
    PoolIsWeighted(ps);
    WeightedCount(ps, a);
  }

  lemma {:induction false} StockMatching(ps: seq<Prize>, a: int)
    ensures StockOf(ps, a) >= Matching(ps, a)
    ensures StockOf(ps, a) == 0 <==> Matching(ps, a) == 0
  {
    if ps != [] {
      StockMatching(ps[1..], a);
    }
  }

  /** An amount is in the pool exactly when some tier with that amount has stock left. */
  lemma {:induction false} PoolMembership(ps: seq<Prize>, a: int)
    ensures a in Pool(ps) <==> exists i :: 0 <= i < |ps| && ps[i].amount == a && ps[i].quantity > 0
  {
    PoolCount(ps, a);
    StockMatching(ps, a);
    assert a in Pool(ps) <==> multiset(Pool(ps))[a] > 0;
  }

  lemma {:induction false} WeightedLength(ps: seq<Prize>)
    ensures TotalQuantity(ps) <= |Weighted(ps)|
    ensures AllNonNegative(ps) ==> TotalQuantity(ps) == |Weighted(ps)|
  {
    if ps != [] {
      WeightedLength(ps[1..]);
      assert AllNonNegative(ps) ==> AllNonNegative(ps[1..]) by {
        if AllNonNegative(ps) {
          forall i | 0 <= i < |ps[1..]| ensures ps[1..][i].quantity >= 0 {
            assert ps[1..][i] == ps[i + 1];
          }
        }
      }
    }
  }

  /** The `SUM(quantity)` shown on the index page and checked by select_user
      never exceeds the pool's length, and equals it when no quantity is
      negative. So a positive sum guarantees a non-empty pool. */
  lemma {:induction false} TotalBoundsPool(ps: seq<Prize>)
    ensures TotalQuantity(ps) <= |Pool(ps)|
    ensures AllNonNegative(ps) ==> TotalQuantity(ps) == |Pool(ps)|
    ensures TotalQuantity(ps) > 0 ==> Pool(ps) != []
  {
    PoolIsWeighted(ps);
    WeightedLength(ps);
  }

  lemma {:induction false} SumAppend(a: seq<int>, b: seq<int>)
    ensures Sum(a + b) == Sum(a) + Sum(b)
  {
    if a == [] {
      assert a + b == b;
    } else {
      assert (a + b)[1..] == a[1..] + b;
      SumAppend(a[1..], b);
    }
  }

  lemma {:induction false} SumRepeat(a: int, n: int)
    ensures Sum(Repeat(a, n)) == if n > 0 then a * n else 0
    decreases n
  {
    if n > 0 {
      SumRepeat(a, n - 1);
      assert Repeat(a, n) == [a] + Repeat(a, n - 1);
      assert Repeat(a, n)[1..] == Repeat(a, n - 1);
      assert a * n == a + a * (n - 1);
    }
  }

  lemma {:induction false} WeightedSum(ps: seq<Prize>)
    requires AllNonNegative(ps)
    ensures Sum(Weighted(ps)) == TotalValue(ps)
  {
    if ps != [] {
      assert AllNonNegative(ps[1..]) by {
        forall i | 0 <= i < |ps[1..]| ensures ps[1..][i].quantity >= 0 {
          assert ps[1..][i] == ps[i + 1];
        }
      }
      WeightedSum(ps[1..]);
      SumAppend(Repeat(ps[0].amount, ps[0].quantity), Weighted(ps[1..]));
      SumRepeat(ps[0].amount, ps[0].quantity);
    }
  }

  /** A positive `SUM(quantity)` needs a tier with a positive quantity, and
      without negative quantities the sum is at least every tier's quantity. */
  lemma {:induction false} TotalQuantityBounds(ps: seq<Prize>)
    ensures TotalQuantity(ps) > 0 ==> exists i :: 0 <= i < |ps| && ps[i].quantity > 0
    ensures AllNonNegative(ps) ==>
              TotalQuantity(ps) >= 0 && forall i :: 0 <= i < |ps| ==> ps[i].quantity <= TotalQuantity(ps)
  {
    if ps != [] {
      assert forall i :: 1 <= i < |ps| ==> ps[i] == ps[1..][i - 1];
      TotalQuantityBounds(ps[1..]);
    }
  }

  /** The `total_prize_pool` figure is never negative when no amount and no
      quantity is, and it is zero when every quantity is zero. */
  lemma {:induction false} TotalValueBounds(ps: seq<Prize>)
    ensures (forall i :: 0 <= i < |ps| ==> ps[i].amount >= 0 && ps[i].quantity >= 0) ==> TotalValue(ps) >= 0
    ensures (forall i :: 0 <= i < |ps| ==> ps[i].quantity == 0) ==> TotalValue(ps) == 0
  {
    if ps != [] {
      assert forall i :: 1 <= i < |ps| ==> ps[i] == ps[1..][i - 1];
      TotalValueBounds(ps[1..]);
      if ps[0].amount >= 0 && ps[0].quantity >= 0 {
        assert ps[0].amount * ps[0].quantity >= 0;
      }
    }
  }

  /** With no negative quantity, the `total_prize_pool` figure is the sum of
      every entry of the wheel's pool. */
  lemma {:induction false} TotalValueIsPoolSum(ps: seq<Prize>)
    requires AllNonNegative(ps)
    ensures TotalValue(ps) == Sum(Pool(ps))
  {
    PoolIsWeighted(ps);
    WeightedSum(ps);
  }

  // ---------------------------------------------------------------------------
  // Lemmas: what a winning spin's UPDATE does to the pool
  // ---------------------------------------------------------------------------

  lemma DecrementUnfold(ps: seq<Prize>, won: int)
    requires ps != []
    ensures var p := ps[0];
            Weighted(Decrement(ps, won))
            == Repeat(p.amount, if p.amount == won && p.quantity > 0 then p.quantity - 1 else p.quantity)
               + Weighted(Decrement(ps[1..], won))
  {
    var p := ps[0];
    var h := if p.amount == won && p.quantity > 0 then p.(quantity := p.quantity - 1) else p;
    var rest := Decrement(ps[1..], won);
    assert Decrement(ps, won) == [h] + rest;
    assert ([h] + rest)[1..] == rest;
  }

  /** One tier's share of the induction step: a decremented tier moves one copy
      of the won amount from the weighted list to the removed part, any other
      tier keeps its copies. */
  lemma DecrementStep(q: int, a: int, won: int, hit: bool, m: nat, wr: seq<int>, wt: seq<int>)
    requires hit ==> a == won && q > 0
    requires multiset(wr) + multiset(Repeat(won, m)) == multiset(wt)
    ensures multiset(Repeat(a, if hit then q - 1 else q) + wr) + multiset(Repeat(won, if hit then m + 1 else m))
            == multiset(Repeat(a, q) + wt)
  {
    if hit {
      assert Repeat(won, m + 1) == [won] + Repeat(won, m);
      assert Repeat(won, q) == [won] + Repeat(won, q - 1);
    }
  }

  lemma {:induction false} WeightedDecrement(ps: seq<Prize>, won: int)
    ensures multiset(Weighted(Decrement(ps, won))) + multiset(Repeat(won, Matching(ps, won)))
            == multiset(Weighted(ps))
  {
    if ps != [] {
      var p := ps[0];
      var hit := p.amount == won && p.quantity > 0;
      var m := Matching(ps[1..], won);
      var wr, wt := Weighted(Decrement(ps[1..], won)), Weighted(ps[1..]);
      WeightedDecrement(ps[1..], won);
      DecrementUnfold(ps, won);
      assert Matching(ps, won) == if hit then m + 1 else m;
      DecrementStep(p.quantity, p.amount, won, hit, m, wr, wt);
    }
  }

  /** A winning spin removes from the pool one copy of the won amount for each
      tier it decrements, and nothing else. */
  lemma {:induction false} DecrementPool(ps: seq<Prize>, won: int)
    ensures multiset(Pool(Decrement(ps, won))) + multiset(Repeat(won, Matching(ps, won)))
            == multiset(Pool(ps))
    ensures |Pool(Decrement(ps, won))| == |Pool(ps)| - Matching(ps, won)
  {
    PoolIsWeighted(ps);
    PoolIsWeighted(Decrement(ps, won));
    WeightedDecrement(ps, won);
    assert |multiset(Pool(Decrement(ps, won)))| + |multiset(Repeat(won, Matching(ps, won)))|
           == |multiset(Pool(ps))|;
  }

  /** A drawn amount always matches at least one tier, so every winning spin
      shrinks the pool. */
  lemma {:induction false} DrawShrinksPool(ps: seq<Prize>, won: int)
    requires won in Pool(ps)
    ensures Matching(ps, won) >= 1
    ensures |Pool(Decrement(ps, won))| < |Pool(ps)|
  {
    PoolMembership(ps, won);
    DecrementPool(ps, won);
  }

  /** When exactly one tier with stock carries the won amount, the spin takes
      exactly one unit: the pool loses one copy of that amount. */
  lemma {:induction false} SingleTierDecrement(ps: seq<Prize>, won: int)
    requires Matching(ps, won) == 1
    ensures multiset(Pool(Decrement(ps, won))) == multiset(Pool(ps)) - multiset{won}
  {
    DecrementPool(ps, won);
    assert Repeat(won, 1) == [won];
  }

  /** The sums over a table are its first row's share plus the sums over the rest. */
  lemma {:induction false} TotalsCons(p: Prize, rest: seq<Prize>)
    ensures TotalQuantity([p] + rest) == p.quantity + TotalQuantity(rest)
    ensures TotalValue([p] + rest) == p.amount * p.quantity + TotalValue(rest)
  {
    assert ([p] + rest)[1..] == rest;
  }

  /** Two tiers of the same amount, one unit each: one winning spin of that
      amount empties both, so two units leave stock for a single winner. */
  lemma SharedAmountTakesTwoUnits(id1: int, id2: int, a: int)
    ensures var ps := [Prize(id1, a, 1), Prize(id2, a, 1)];
            |Pool(ps)| == 2 && Decrement(ps, a) == [Prize(id1, a, 0), Prize(id2, a, 0)] &&
            Pool(Decrement(ps, a)) == []
  {
    var ps := [Prize(id1, a, 1), Prize(id2, a, 1)];
    TotalsCons(ps[1], []);
    TotalsCons(ps[0], [ps[1]]);
    assert ps == [ps[0]] + [ps[1]] && [ps[1]] == [ps[1]] + [];
    assert AllNonNegative(ps);
    TotalBoundsPool(ps);
    var d := Decrement(ps, a);
    assert |d| == 2 && d[0] == Prize(id1, a, 0) && d[1] == Prize(id2, a, 0);
  }

  /** The totals of seven rows, one row at a time. */
  lemma {:induction false} TotalsOfSeven(p0: Prize, p1: Prize, p2: Prize, p3: Prize, p4: Prize, p5: Prize, p6: Prize)
    ensures TotalQuantity([p0, p1, p2, p3, p4, p5, p6])
            == p0.quantity + p1.quantity + p2.quantity + p3.quantity + p4.quantity + p5.quantity + p6.quantity
    ensures TotalValue([p0, p1, p2, p3, p4, p5, p6])
            == p0.amount * p0.quantity + p1.amount * p1.quantity + p2.amount * p2.quantity
               + p3.amount * p3.quantity + p4.amount * p4.quantity + p5.amount * p5.quantity
               + p6.amount * p6.quantity
  {
    TotalsCons(p6, []);
    assert [p6] == [p6] + [];
    TotalsCons(p5, [p6]);
    TotalsCons(p4, [p5, p6]);
    assert [p5, p6] == [p5] + [p6];
    TotalsCons(p3, [p4, p5, p6]);
    assert [p4, p5, p6] == [p4] + [p5, p6];
    TotalsCons(p2, [p3, p4, p5, p6]);
    assert [p3, p4, p5, p6] == [p3] + [p4, p5, p6];
    TotalsCons(p1, [p2, p3, p4, p5, p6]);
    assert [p2, p3, p4, p5, p6] == [p2] + [p3, p4, p5, p6];
    TotalsCons(p0, [p1, p2, p3, p4, p5, p6]);
    assert [p1, p2, p3, p4, p5, p6] == [p1] + [p2, p3, p4, p5, p6];
    assert [p0, p1, p2, p3, p4, p5, p6] == [p0] + [p1, p2, p3, p4, p5, p6];
  }

  /** The default seeding stocks 32 units worth 60,000 in all. */
  lemma SeedTotals(start: int)
    ensures TotalQuantity(SeedRows(start)) == 32
    ensures TotalValue(SeedRows(start)) == 60000
    ensures |Pool(SeedRows(start))| == 32
  {
    var r := SeedRows(start);
    assert r == [r[0], r[1], r[2], r[3], r[4], r[5], r[6]];
    TotalsOfSeven(r[0], r[1], r[2], r[3], r[4], r[5], r[6]);
    assert AllNonNegative(r);
    TotalBoundsPool(r);
  }
}
