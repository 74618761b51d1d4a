/**
 * Debits and credits of one account, applied one transaction at a time and clamped at zero: how deep an
 * order digs, and exactly when the order of the transactions shows in the final balance.
 */
module Clamping {
  import opened Lux
  import opened Sums

  /** What one transaction does to the account: first a clamped debit, then a credit. */
  datatype Item = Item(debit: int, credit: int)

  type Items = map<string, Item>

  predicate NonNegative(items: Items) {
    forall id | id in items :: items[id].debit >= 0 && items[id].credit >= 0
  }

  function Gain(i: Item): int { i.credit - i.debit }

  function Loss(i: Item): int { Max(0, i.debit - i.credit) }

  /** The part of the debit that the same transaction pays back. */
  function Overlap(i: Item): int { Min(i.debit, i.credit) }

  function Gains(items: Items): map<string, int> {
    map id | id in items :: Gain(items[id])
  }

  function Losses(items: Items): map<string, int> {
    map id | id in items :: Loss(items[id])
  }

  /** The largest overlap of any item, or 0. */
  ghost function Peak(items: Items): int
    decreases |items|
  {
    if items.Keys == {} then 0
    else
      var id := Pick(items);
      Max(Overlap(items[id]), Peak(items - {id}))
  }

  /** The deepest point below the start that any order can reach. */
  ghost function Depth(items: Items): int {
    Sum(Losses(items)) + Peak(items)
  }

  lemma {:induction false} PeakBounds(items: Items)
    ensures Peak(items) >= 0 && forall id | id in items :: Overlap(items[id]) <= Peak(items)
    ensures Peak(items) == 0 || exists id :: id in items && Overlap(items[id]) == Peak(items)
    decreases |items|
  {
    if items.Keys != {} {
      var id, rest := Pick(items), items - {Pick(items)};
      PeakBounds(rest);
      forall k | k in items
        ensures Overlap(items[k]) <= Peak(items)
      {
        if k != id { assert k in rest; }
      }
      if Peak(items) == Peak(rest) && Peak(rest) != 0 {
        var k :| k in rest && Overlap(rest[k]) == Peak(rest);
        assert k in items && Overlap(items[k]) == Peak(items);
      }
    }
  }

  // ---------------------------------------------------------------- orders

  predicate Distinct(order: seq<string>) {
    forall i, j | 0 <= i < j < |order| :: order[i] != order[j]
  }

  function Elements(order: seq<string>): set<string> {
    set i | 0 <= i < |order| :: order[i]
  }

  predicate Among(order: seq<string>, ids: set<string>) {
    forall i | 0 <= i < |order| :: order[i] in ids
  }

  /** Every item exactly once. */
  ghost predicate Arrangement(order: seq<string>, items: Items) {
    Distinct(order) && Elements(order) == items.Keys
  }

  /** The balance after applying the items in this order. */
  function Final(start: int, items: Items, order: seq<string>): int
    requires Among(order, items.Keys)
  {
    if order == [] then start
    else
      var i := items[order[|order| - 1]];
      Max(0, Final(start, items, order[..|order| - 1]) - i.debit) + i.credit
  }

  lemma FinalSnoc(start: int, items: Items, order: seq<string>, id: string)
    requires Among(order, items.Keys) && id in items
    ensures Among(order + [id], items.Keys)
    ensures Final(start, items, order + [id]) == Max(0, Final(start, items, order) - items[id].debit) + items[id].credit
  {
    assert (order + [id])[..|order|] == order;
  }

  function Total(m: map<string, int>, order: seq<string>): int
    requires Among(order, m.Keys)
  {
    if order == [] then 0 else Total(m, order[..|order| - 1]) + m[order[|order| - 1]]
  }

  /** How far below the start the k-th debit of the order takes the unclamped balance. */
  function Dip(items: Items, order: seq<string>, k: nat): int
    requires Among(order, items.Keys) && k < |order|
  {
    items[order[k]].debit - Total(Gains(items), order[..k])
  }

  lemma ElementsSnoc(order: seq<string>)
    requires order != []
    ensures Elements(order) == Elements(order[..|order| - 1]) + {order[|order| - 1]}
  {
  }

  function Part(m: map<string, int>, ids: set<string>): map<string, int> {
    map id | id in m && id in ids :: m[id]
  }

  lemma {:induction false} PartInsert(m: map<string, int>, ids: set<string>, id: string)
    requires ids <= m.Keys && id in m && id !in ids
    ensures Sum(Part(m, ids + {id})) == Sum(Part(m, ids)) + m[id]
  {
    var v, part := m[id], Part(m, ids);
    SumInsert(part, id, v);
    assert Part(m, ids + {id}) == part[id := v];
  }

  lemma {:induction false} TotalIsSum(m: map<string, int>, order: seq<string>)
    requires Distinct(order) && Among(order, m.Keys)
    ensures Total(m, order) == Sum(Part(m, Elements(order)))
    decreases |order|
  {
    if order == [] {
      assert Part(m, Elements(order)) == map[];
    } else {
      var init, last := order[..|order| - 1], order[|order| - 1];
      TotalIsSum(m, init);
      ElementsSnoc(order);
      PartInsert(m, Elements(init), last);
    }
  }

  lemma {:induction false} ArrangementTotal(m: map<string, int>, order: seq<string>)
    requires Distinct(order) && Elements(order) == m.Keys
    ensures Among(order, m.Keys) && Total(m, order) == Sum(m)
  {
    assert forall i | 0 <= i < |order| :: order[i] in Elements(order);
    TotalIsSum(m, order);
    assert Part(m, Elements(order)) == m;
  }

  /** A part of an order loses no more than all items together, and without `x` less by its loss. */
  lemma {:induction false} LossBound(items: Items, order: seq<string>, x: string)
    requires NonNegative(items) && Distinct(order) && Among(order, items.Keys)
    ensures Total(Losses(items), order) <= Sum(Losses(items))
    ensures x in items && x !in Elements(order) ==> Total(Losses(items), order) <= Sum(Losses(items)) - Loss(items[x])
  {
    var all, part := Losses(items), Part(Losses(items), Elements(order));
    TotalIsSum(all, order);
    SumMonotone(part, all);
    if x in items && x !in Elements(order) {
      SumRemove(all, x);
      SumMonotone(part, all - {x});
    }
  }

  lemma {:induction false} GainAgainstLoss(items: Items, order: seq<string>)
    requires Among(order, items.Keys)
    ensures -Total(Gains(items), order) <= Total(Losses(items), order)
    ensures order != [] && Gain(items[order[0]]) > 0 ==>
              -Total(Gains(items), order) <= Total(Losses(items), order) - Gain(items[order[0]])
    ensures (forall i | 0 <= i < |order| :: Gain(items[order[i]]) <= 0) ==>
              -Total(Gains(items), order) == Total(Losses(items), order)
    decreases |order|
  {
    if order != [] { GainAgainstLoss(items, order[..|order| - 1]); }
  }

  // ---------------------------------------------------------------- final balance and dips

  lemma {:induction false} FinalLower(start: int, items: Items, order: seq<string>, k: nat)
    requires NonNegative(items) && Among(order, items.Keys)
    ensures Final(start, items, order) >= start + Total(Gains(items), order)
    ensures k < |order| ==> Final(start, items, order) >= Total(Gains(items), order) + Dip(items, order, k)
    decreases |order|
  {
    if order != [] {
      var n := |order| - 1;
      FinalLower(start, items, order[..n], k);
      if k < n { assert order[..n][..k] == order[..k]; }
    }
  }

  lemma {:induction false} FinalUpper(start: int, items: Items, order: seq<string>, x: int)
    requires Among(order, items.Keys) && start <= x
    requires forall k | 0 <= k < |order| :: Dip(items, order, k) <= x
    ensures Final(start, items, order) <= Total(Gains(items), order) + x
    decreases |order|
  {
    if order != [] {
      var n := |order| - 1;
      var init := order[..n];
      forall k | 0 <= k < |init|
        ensures Dip(items, init, k) <= x
      {
        assert init[..k] == order[..k];
        assert Dip(items, order, k) <= x;
      }
      FinalUpper(start, items, init, x);
      assert Dip(items, order, n) <= x;
    }
  }

  /** No order digs deeper than the depth. */
  lemma {:induction false} DipBound(items: Items, order: seq<string>, k: nat)
    requires NonNegative(items) && Distinct(order) && Among(order, items.Keys) && k < |order|
    ensures Dip(items, order, k) <= Sum(Losses(items)) + Overlap(items[order[k]]) <= Depth(items)
  {
    var upto := order[..k + 1];
    assert upto[..k] == order[..k];
    GainAgainstLoss(items, order[..k]);
    LossBound(items, upto, "");
    PeakBounds(items);
  }

  /** An order that starts with a net credit of small debit stays above the depth. */
  lemma {:induction false} GainFirst(items: Items, order: seq<string>, k: nat)
    requires NonNegative(items) && Distinct(order) && Among(order, items.Keys) && k < |order|
    requires Gain(items[order[0]]) > 0 && items[order[0]].debit < Depth(items)
    ensures Dip(items, order, k) < Depth(items)
  {
    if k > 0 {
      var upto := order[..k + 1];
      assert upto[..k] == order[..k];
      GainAgainstLoss(items, order[..k]);
      LossBound(items, upto, "");
      PeakBounds(items);
    }
  }

  /** So does an order that ends with a net debit of small credit. */
  lemma {:induction false} LossLast(items: Items, order: seq<string>, k: nat)
    requires NonNegative(items) && Distinct(order) && Among(order, items.Keys) && k < |order|
    requires var x := items[order[|order| - 1]]; Loss(x) > 0 && x.credit < Peak(items)
    ensures Dip(items, order, k) < Depth(items)
  {
    DipBound(items, order, k);
    if k < |order| - 1 {
      var upto := order[..k + 1];
      assert upto[..k] == order[..k];
      GainAgainstLoss(items, order[..k]);
      assert order[|order| - 1] !in Elements(upto);
      LossBound(items, upto, order[|order| - 1]);
      PeakBounds(items);
    }
  }

  // ---------------------------------------------------------------- when every order digs as deep

  /**
   * The order cannot show: the start covers the depth, or every net credit comes with a debit as deep as
   * that, and every net debit with a credit as large as the largest overlap.
   */
  ghost predicate OrderHidden(items: Items, start: int) {
    || Depth(items) <= start
    || (&& (forall id | id in items && Gain(items[id]) > 0 :: items[id].debit >= Depth(items))
        && (forall id | id in items && Loss(items[id]) > 0 :: items[id].credit >= Peak(items)))
  }

  lemma {:induction false} LastLoss(items: Items, order: seq<string>) returns (k: nat)
    requires Among(order, items.Keys) && exists i :: 0 <= i < |order| && Loss(items[order[i]]) > 0
    ensures k < |order| && Loss(items[order[k]]) > 0
    ensures forall i | k < i < |order| :: Loss(items[order[i]]) == 0
    decreases |order|
  {
    var n := |order| - 1;
    if Loss(items[order[n]]) > 0 { k := n; }
    else {
      var i :| 0 <= i < |order| && Loss(items[order[i]]) > 0;
      assert order[..n][i] == order[i];
      k := LastLoss(items, order[..n]);
    }
  }

  lemma {:induction false} NoLossAfter(items: Items, order: seq<string>, k: nat)
    requires Among(order, items.Keys) && k <= |order|
    requires forall i | k <= i < |order| :: Loss(items[order[i]]) == 0
    ensures Total(Losses(items), order) == Total(Losses(items), order[..k])
    decreases |order|
  {
    var n := |order| - 1;
    if k == |order| {
      assert order[..k] == order;
    } else {
      assert order[..n][..k] == order[..k];
      NoLossAfter(items, order[..n], k);
    }
  }

  lemma {:induction false} SomeLoss(items: Items, x: string)
    requires NonNegative(items) && x in items && Loss(items[x]) > 0
    ensures Sum(Losses(items)) > 0
  {
    var all := Losses(items);
    SumRemove(all, x);
    SumMonotone(all - {x}, all - {x});
  }

  /** With net debits around, an item as deep as the depth cannot be a net credit. */
  lemma {:induction false} NoGains(items: Items, x: string)
    requires NonNegative(items) && x in items && Loss(items[x]) > 0
    requires forall id | id in items && Gain(items[id]) > 0 :: items[id].debit >= Depth(items)
    ensures forall id | id in items :: Gain(items[id]) <= 0
  {
    PeakBounds(items);
    SomeLoss(items, x);
    assert forall id | id in items :: Overlap(items[id]) < Depth(items);
  }

  /** With net debits around, the last of them reaches the depth. */
  lemma {:induction false} LastLossDigs(items: Items, order: seq<string>) returns (k: nat)
    requires NonNegative(items) && Arrangement(order, items)
    requires forall id | id in items && Gain(items[id]) > 0 :: items[id].debit >= Depth(items)
    requires forall id | id in items && Loss(items[id]) > 0 :: items[id].credit >= Peak(items)
    requires exists i :: 0 <= i < |order| && order[i] in items && Loss(items[order[i]]) > 0
    ensures k < |order| && Among(order, items.Keys) && Dip(items, order, k) >= Depth(items)
  {
    ArrangementTotal(Losses(items), order);
    k := LastLoss(items, order);
    NoGains(items, order[k]);
    NoLossAfter(items, order, k + 1);
    assert order[..k + 1][..k] == order[..k];
    GainAgainstLoss(items, order[..k]);
  }

  lemma {:induction false} FirstDeep(items: Items, order: seq<string>, depth: int) returns (k: nat)
    requires Among(order, items.Keys) && exists i :: 0 <= i < |order| && items[order[i]].debit >= depth
    ensures k < |order| && items[order[k]].debit >= depth
    ensures forall i | 0 <= i < k :: items[order[i]].debit < depth
    decreases |order|
  {
    var n := |order| - 1;
    if exists i :: 0 <= i < n && items[order[i]].debit >= depth {
      var i :| 0 <= i < n && items[order[i]].debit >= depth;
      assert order[..n][i] == order[i];
      k := FirstDeep(items, order[..n], depth);
    } else {
      k := n;
    }
  }

  lemma {:induction false} SomeDeep(items: Items, order: seq<string>)
    requires Arrangement(order, items) && Among(order, items.Keys) && Peak(items) > 0
    ensures exists i :: 0 <= i < |order| && items[order[i]].debit >= Peak(items)
  {
    PeakBounds(items);
    var t :| t in items && Overlap(items[t]) == Peak(items);
    assert t in Elements(order);
  }

  /** Without net debits, the first item as deep as the largest overlap reaches the depth. */
  lemma {:induction false} FirstDeepDigs(items: Items, order: seq<string>) returns (k: nat)
    requires NonNegative(items) && Arrangement(order, items) && Depth(items) > 0
    requires forall id | id in items && Gain(items[id]) > 0 :: items[id].debit >= Depth(items)
    requires forall id | id in items :: Loss(items[id]) == 0
    ensures k < |order| && Among(order, items.Keys) && Dip(items, order, k) >= Depth(items)
  {
    assert Among(order, items.Keys) by {
      assert forall i | 0 <= i < |order| :: order[i] in Elements(order);
    }
    SumZero(Losses(items));
    SomeDeep(items, order);
    k := FirstDeep(items, order, Depth(items));
    forall i | 0 <= i < k
      ensures Gain(items[order[..k][i]]) <= 0
    {
      assert items[order[i]].debit < Depth(items);
    }
    GainAgainstLoss(items, order[..k]);
    assert forall i | 0 <= i < k :: Loss(items[order[i]]) == 0;
    NoLossAfter(items, order[..k], 0);
  }

  /** If the order is hidden, the final balance is the same closed form in every order. */
  lemma {:induction false} HiddenFinal(items: Items, start: int, order: seq<string>)
    requires NonNegative(items) && start >= 0 && OrderHidden(items, start) && Arrangement(order, items)
    ensures Among(order, items.Keys)
    ensures Final(start, items, order) == Sum(Gains(items)) + Max(start, Depth(items))
  {
    ArrangementTotal(Gains(items), order);
    FinalLower(start, items, order, |order|);
    forall k | 0 <= k < |order|
      ensures Dip(items, order, k) <= Max(start, Depth(items))
    {
      DipBound(items, order, k);
    }
    FinalUpper(start, items, order, Max(start, Depth(items)));
    if Depth(items) > start {
      var k;
      if i :| 0 <= i < |order| && Loss(items[order[i]]) > 0 {
        k := LastLossDigs(items, order);
      } else {
        forall id | id in items
          ensures Loss(items[id]) == 0
        {
          assert id in Elements(order);
        }
        k := FirstDeepDigs(items, order);
      }
      FinalLower(start, items, order, k);
    }
  }

  // ---------------------------------------------------------------- when two orders differ

  ghost function Arrange(ids: set<string>): (order: seq<string>)
    ensures Distinct(order) && Elements(order) == ids
    decreases |ids|
  {
    if ids == {} then []
    else
      var id :| id in ids;
      var order := Arrange(ids - {id});
      assert forall i | 0 <= i < |order| :: order[i] in Elements(order);
      ElementsSnoc(order + [id]);
      assert (order + [id])[..|order|] == order;
      order + [id]
  }

  lemma ElementsOne(x: string)
    ensures Elements([x]) == {x}
  {
    assert [x][0] in Elements([x]);
  }

  lemma ElementsConcat(a: seq<string>, b: seq<string>)
    requires Distinct(a) && Distinct(b) && Elements(a) !! Elements(b)
    ensures Distinct(a + b) && Elements(a + b) == Elements(a) + Elements(b)
  {
    var c := a + b;
    assert forall i | 0 <= i < |a| :: c[i] == a[i] && a[i] in Elements(a);
    assert forall i | 0 <= i < |b| :: c[|a| + i] == b[i] && b[i] in Elements(b);
    forall x | x in Elements(a) + Elements(b)
      ensures x in Elements(c)
    {
      if x in Elements(a) {
        var i :| 0 <= i < |a| && a[i] == x;
        assert c[i] == x;
      } else {
        var i :| 0 <= i < |b| && b[i] == x;
        assert c[|a| + i] == x;
      }
    }
  }

  /** The net debits other than `t`. */
  function Lossy(items: Items, t: string): set<string> {
    set id | id in items && Loss(items[id]) > 0 && id != t
  }

  lemma {:induction false} LossyTotal(items: Items, t: string, first: seq<string>)
    requires t in items && Distinct(first) && Elements(first) == Lossy(items, t)
    ensures Among(first, items.Keys)
    ensures -Total(Gains(items), first) == Sum(Losses(items)) - Loss(items[t])
  {
    var all, lossy := Losses(items), Lossy(items, t);
    assert forall i | 0 <= i < |first| :: first[i] in Elements(first);
    GainAgainstLoss(items, first);
    TotalIsSum(all, first);
    SumRemove(all, t);
    SumOfLossy(all - {t}, lossy);
    assert Part(all, lossy) == Part(all - {t}, lossy);
  }

  /** All other net debits first, then an item of largest overlap: this order reaches the depth. */
  lemma {:induction false} DeepOrder(items: Items, t: string) returns (order: seq<string>, k: nat)
    requires NonNegative(items) && t in items && Overlap(items[t]) == Peak(items)
    ensures Arrangement(order, items) && Among(order, items.Keys) && k < |order| && Dip(items, order, k) == Depth(items)
  {
    var lossy := Lossy(items, t);
    var first, rest := Arrange(lossy), Arrange(items.Keys - lossy - {t});
    order, k := first + [t] + rest, |first|;
    Assemble(first, t, rest);
    assert lossy + {t} + (items.Keys - lossy - {t}) == items.Keys;
    assert forall i | 0 <= i < |order| :: order[i] in Elements(order);
    LossyTotal(items, t, first);
    assert order[..k] == first && order[k] == t;
  }

  lemma Assemble(first: seq<string>, t: string, rest: seq<string>)
    requires Distinct(first) && Distinct(rest) && t !in Elements(first) && t !in Elements(rest) && Elements(first) !! Elements(rest)
    ensures Distinct(first + [t] + rest) && Elements(first + [t] + rest) == Elements(first) + {t} + Elements(rest)
  {
    ElementsOne(t);
    ElementsConcat(first, [t]);
    ElementsConcat(first + [t], rest);
  }

  lemma {:induction false} SumOfLossy(m: map<string, int>, ids: set<string>)
    requires forall id | id in m && id !in ids :: m[id] == 0
    ensures Sum(Part(m, ids)) == Sum(m)
    decreases |m|
  {
    if id :| id in m && id !in ids {
      SumRemove(m, id);
      SumOfLossy(m - {id}, ids);
      assert Part(m - {id}, ids) == Part(m, ids);
    } else {
      assert Part(m, ids) == m;
    }
  }

  /** If the order can show, some order stays above the depth. */
  lemma ShallowOrder(items: Items, start: int) returns (order: seq<string>)
    requires NonNegative(items) && !OrderHidden(items, start)
    ensures Arrangement(order, items) && Among(order, items.Keys)
    ensures forall k | 0 <= k < |order| :: Dip(items, order, k) < Depth(items)
  {
    if g :| g in items && Gain(items[g]) > 0 && items[g].debit < Depth(items) {
      var rest := Arrange(items.Keys - {g});
      ElementsOne(g);
      ElementsConcat([g], rest);
      order := [g] + rest;
      assert forall i | 0 <= i < |order| :: order[i] in Elements(order);
      forall k | 0 <= k < |order|
        ensures Dip(items, order, k) < Depth(items)
      {
        GainFirst(items, order, k);
      }
    } else {
      var x :| x in items && Loss(items[x]) > 0 && items[x].credit < Peak(items);
      var rest := Arrange(items.Keys - {x});
      ElementsOne(x);
      ElementsConcat(rest, [x]);
      order := rest + [x];
      assert forall i | 0 <= i < |order| :: order[i] in Elements(order);
      forall k | 0 <= k < |order|
        ensures Dip(items, order, k) < Depth(items)
      {
        LossLast(items, order, k);
      }
    }
  }

  lemma DeepestItem(items: Items, start: int) returns (t: string)
    requires NonNegative(items) && start >= 0 && Depth(items) > start
    ensures t in items && Overlap(items[t]) == Peak(items)
  {
    PeakBounds(items);
    if Peak(items) > 0 {
      t :| t in items && Overlap(items[t]) == Peak(items);
    } else {
      assert items.Keys == {} ==> Losses(items) == map[];
      t :| t in items;
    }
  }

  lemma {:induction false} ShownFinals(items: Items, start: int) returns (a: seq<string>, b: seq<string>)
    requires NonNegative(items) && start >= 0 && !OrderHidden(items, start)
    ensures Arrangement(a, items) && Arrangement(b, items) && Among(a, items.Keys) && Among(b, items.Keys)
    ensures Final(start, items, a) > Final(start, items, b)
  {
    var t := DeepestItem(items, start);
    var k;
    a, k := DeepOrder(items, t);
    b := ShallowOrder(items, start);
    ArrangementTotal(Gains(items), a);
    ArrangementTotal(Gains(items), b);
    FinalLower(start, items, a, k);
    FinalUpper(start, items, b, Max(start, Depth(items) - 1));
  }

  function DebitsOf(items: Items): map<string, int> {
    map id | id in items :: items[id].debit
  }

  predicate Simple(items: Items) {
    forall id | id in items :: items[id].debit == 0 || items[id].credit == 0
  }

  lemma {:induction false} SimpleDepth(items: Items)
    requires NonNegative(items) && Simple(items)
    ensures Peak(items) == 0 && Depth(items) == Sum(DebitsOf(items)) >= 0
  {
    assert DebitsOf(items) == Losses(items);
    PeakBounds(items);
    SumMonotone(Losses(items), Losses(items));
  }

  /** Without transactions that both debit and credit: the order is hidden iff the debits are covered, or there are no credits. */
  lemma {:induction false} PlainOrderHidden(items: Items, start: int)
    requires NonNegative(items) && start >= 0 && Simple(items)
    ensures OrderHidden(items, start) <==>
            Sum(DebitsOf(items)) <= start || forall id | id in items :: items[id].credit == 0
  {
    SimpleDepth(items);
    assert forall id | id in items :: Gain(items[id]) > 0 <==> items[id].credit > 0;
  }
}
