/** Coins to pay with, their orders, and the largest-first prefix every greedy selector takes. */
module Coins {
  import opened Ordering
  import opened Store

  const U64_RANGE := 0x1_0000_0000_0000_0000

  /** What selection looks at in a row: its amount and, to break ties, its outpoint. */
  datatype Coin = Coin(amount: nat, outpoint: Outpoint)

  predicate OutpointLe(a: Outpoint, b: Outpoint) {
    if a.txid == b.txid then a.vout <= b.vout else TextLe(a.txid, b.txid)
  }

  predicate SmallestFirst(a: Coin, b: Coin) {
    a.amount < b.amount || (a.amount == b.amount && OutpointLe(a.outpoint, b.outpoint))
  }

  predicate LargestFirst(a: Coin, b: Coin) {
    a.amount > b.amount || (a.amount == b.amount && OutpointLe(a.outpoint, b.outpoint))
  }

  lemma OutpointLeTotal()
    ensures IsTotal(OutpointLe)
  {
    forall a: Outpoint, b: Outpoint
      ensures OutpointLe(a, b) || OutpointLe(b, a)
      ensures OutpointLe(a, b) && OutpointLe(b, a) ==> a == b
    {
      TextLeTotal(a.txid, b.txid);
    }
    forall a: Outpoint, b: Outpoint, c: Outpoint | OutpointLe(a, b) && OutpointLe(b, c)
      ensures OutpointLe(a, c)
    {
      OutpointTransitive(a, b, c);
    }
  }

  lemma OutpointTransitive(a: Outpoint, b: Outpoint, c: Outpoint)
    requires OutpointLe(a, b) && OutpointLe(b, c)
    ensures OutpointLe(a, c)
  {
    if a.txid != b.txid && b.txid != c.txid {
      TextLeTransitive(a.txid, b.txid, c.txid);
      TextLeTotal(a.txid, b.txid);
    }
  }

  lemma CoinOrdersTotal()
    ensures IsTotal(SmallestFirst) && IsTotal(LargestFirst)
  {
    OutpointLeTotal();
    assert forall a, b :: OutpointLe(a, b) || OutpointLe(b, a);
    assert forall a, b :: OutpointLe(a, b) && OutpointLe(b, a) ==> a == b;
    forall a: Coin, b: Coin, c: Coin
      ensures SmallestFirst(a, b) && SmallestFirst(b, c) ==> SmallestFirst(a, c)
      ensures LargestFirst(a, b) && LargestFirst(b, c) ==> LargestFirst(a, c)
    {
      if OutpointLe(a.outpoint, b.outpoint) && OutpointLe(b.outpoint, c.outpoint) {
        OutpointTransitive(a.outpoint, b.outpoint, c.outpoint);
      }
    }
  }

  function Sum(s: seq<Coin>): nat {
    if |s| == 0 then 0 else s[0].amount + Sum(s[1..])
  }

  lemma {:induction false} SumConcat(s: seq<Coin>, t: seq<Coin>)
    ensures Sum(s + t) == Sum(s) + Sum(t)
  {
    if |s| == 0 {
      assert s + t == t;
    } else {
      assert (s + t)[1..] == s[1..] + t;
      SumConcat(s[1..], t);
    }
  }

  lemma {:induction false} SumWithout(s: seq<Coin>, i: nat)
    requires i < |s|
    ensures Sum(s) == s[i].amount + Sum(Without(s, i))
  {
    if i == 0 {
      assert Without(s, 0) == s[1..];
    } else {
      SumWithout(s[1..], i - 1);
      assert Without(s, i)[0] == s[0] && Without(s, i)[1..] == Without(s[1..], i - 1);
    }
  }

  lemma SumNext(s: seq<Coin>, i: nat)
    requires i < |s|
    ensures Sum(s[..i + 1]) == Sum(s[..i]) + s[i].amount
  {
    assert s[..i + 1] == s[..i] + [s[i]];
    SumConcat(s[..i], [s[i]]);
  }

  lemma {:induction false} SumPrefix(s: seq<Coin>, k: nat, n: nat)
    requires k <= n <= |s|
    ensures Sum(s[..k]) <= Sum(s[..n]) <= Sum(s)
  {
    assert s[..n] == s[..k] + s[k..n] && s == s[..n] + s[n..];
    SumConcat(s[..k], s[k..n]);
    SumConcat(s[..n], s[n..]);
  }

  /** The sum does not depend on the order. */
  lemma {:induction false} SumPermutes(s: seq<Coin>, t: seq<Coin>)
    requires multiset(s) == multiset(t)
    ensures Sum(s) == Sum(t)
  {
    if |s| == 0 {
      assert |multiset(t)| == 0;
    } else {
      assert s[0] in multiset(t);
      var i :| 0 <= i < |t| && t[i] == s[0];
      SumWithout(t, i);
      WithoutContents(s, 0);
      WithoutContents(t, i);
      assert Without(s, 0) == s[1..];
      SumPermutes(s[1..], Without(t, i));
    }
  }

  function SaturatingAdd(a: nat, b: nat): nat {
    if a + b < U64_RANGE then a + b else U64_RANGE - 1
  }

  function SaturatingSub(a: nat, b: nat): nat {
    if a >= b then a - b else 0
  }

  /** How many coins from the front first reach the amount, or all of them. */
  function Needed(s: seq<Coin>, amount: nat): (k: nat)
    ensures k <= |s|
    decreases |s|
  {
    if amount == 0 || |s| == 0 then 0 else 1 + Needed(s[1..], SaturatingSub(amount, s[0].amount))
  }

  /** The prefix reaches the amount if all coins do, and no shorter prefix does. */
  lemma {:induction false} NeededCovers(s: seq<Coin>, amount: nat, n: nat)
    requires n <= |s|
    ensures Sum(s) >= amount ==> (Sum(s[..n]) >= amount <==> n >= Needed(s, amount))
    ensures Sum(s) < amount ==> Needed(s, amount) == |s|
    decreases |s|
  {
    if amount != 0 && |s| != 0 {
      if n > 0 {
        assert s[..n][1..] == s[1..][..n - 1];
        NeededCovers(s[1..], SaturatingSub(amount, s[0].amount), n - 1);
      } else {
        NeededCovers(s[1..], SaturatingSub(amount, s[0].amount), 0);
      }
    }
  }

  /** Amounts never grow along the sequence. */
  ghost predicate Descending(s: seq<Coin>) {
    forall i, j :: 0 <= i < j < |s| ==> s[i].amount >= s[j].amount
  }

  lemma {:induction false} LargestDescends(s: seq<Coin>)
    requires SortedBy(LargestFirst, s)
    ensures Descending(s)
  {
    if |s| > 0 {
      LargestDescends(s[1..]);
      forall j | 0 < j < |s|
        ensures s[0].amount >= s[j].amount
      {
        assert s[j] in s[1..] && LargestFirst(s[0], s[j]);
      }
      assert forall j :: 0 < j < |s| ==> s[j] == s[1..][j - 1];
    }
  }

  lemma SumPrefixCons(s: seq<Coin>, n: nat)
    requires 0 < n <= |s|
    ensures Sum(s[..n]) == s[0].amount + Sum(s[1..][..n - 1])
  {
    assert s[..n][1..] == s[1..][..n - 1];
  }

  lemma ShiftedPrefix(s: seq<Coin>, m: nat)
    requires Descending(s) && m < |s|
    ensures Sum(s[1..][..m]) <= Sum(s[..m])
  {
    SumPrefixCons(s, m + 1);
    SumNext(s, m);
  }

  lemma {:induction false} WorthWithFirst(s: seq<Coin>, other: seq<Coin>, i: nat)
    requires |s| > 0 && i < |other| && other[i] == s[0]
    requires |other| <= |s| && Sum(Without(other, i)) <= Sum(s[1..][..|other| - 1])
    ensures Sum(other) <= Sum(s[..|other|])
  {
    SumWithout(other, i);
    SumPrefixCons(s, |other|);
  }

  /** What is chosen apart from the first coin is chosen from the others. */
  lemma ChosenFromRest(s: seq<Coin>, other: seq<Coin>) returns (rest: seq<Coin>, i: nat)
    requires |s| > 0 && Descending(s) && multiset(other) <= multiset(s)
    ensures Descending(s[1..]) && multiset(rest) <= multiset(s[1..])
    ensures if s[0] in other then i < |other| && other[i] == s[0] && rest == Without(other, i) else rest == other
  {
    WithoutContents(s, 0);
    assert Without(s, 0) == s[1..];
    if s[0] in other {
      i :| 0 <= i < |other| && other[i] == s[0];
      WithoutContents(other, i);
      rest := Without(other, i);
    } else {
      rest, i := other, 0;
      assert multiset(other)[s[0]] == 0;
    }
  }

  /** No choice of as many coins is worth more than the largest ones. */
  lemma {:induction false} LargestAreWorthMost(s: seq<Coin>, other: seq<Coin>)
    requires Descending(s) && multiset(other) <= multiset(s)
    ensures |other| <= |s| && Sum(other) <= Sum(s[..|other|])
    decreases |s|
  {
    if |other| > 0 {
      assert other[0] in multiset(other) && other[0] in multiset(s);
      var rest, i := ChosenFromRest(s, other);
      LargestAreWorthMost(s[1..], rest);
      if s[0] in other {
        WorthWithFirst(s, other, i);
      } else {
        ShiftedPrefix(s, |other|);
      }
    }
  }

  /** The largest-first coins that first reach the amount. */
  function Greedy(coins: seq<Coin>, amount: nat): seq<Coin> {
    var largest := Sort(LargestFirst, coins);
    largest[..Needed(largest, amount)]
  }

  /** Largest-first selection covers the amount if anything does, with coins of the pool, and no other
      choice of coins that covers it uses fewer. */
  lemma {:induction false} GreedyFewest(coins: seq<Coin>, amount: nat, other: seq<Coin>)
    ensures multiset(Greedy(coins, amount)) <= multiset(coins)
    ensures Sum(Greedy(coins, amount)) >= amount <==> Sum(coins) >= amount
    ensures multiset(other) <= multiset(coins) && Sum(other) >= amount ==> |Greedy(coins, amount)| <= |other|
  {
    var largest := Sort(LargestFirst, coins);
    var k := Needed(largest, amount);
    CoinOrdersTotal();
    SortSorts(LargestFirst, coins);
    LargestDescends(largest);
    SumPermutes(largest, coins);
    assert largest == largest[..k] + largest[k..];
    SumPrefix(largest, k, |largest|);
    NeededCovers(largest, amount, k);
    if multiset(other) <= multiset(coins) && Sum(other) >= amount {
      LargestAreWorthMost(largest, other);
      SumPrefix(largest, |other|, |other|);
      NeededCovers(largest, amount, |other|);
    }
  }

  /** What largest-first takes: coins of falling amounts, earlier outpoints first among equals, no coin left out
      before one taken, and none that is not needed. */
  lemma GreedyMeaning(coins: seq<Coin>, amount: nat)
    ensures var taken := Greedy(coins, amount);
      && multiset(taken) <= multiset(coins)
      && (forall i, j :: 0 <= i < j < |taken| ==> LargestFirst(taken[i], taken[j]))
      && (forall i, c :: 0 <= i < |taken| && c in multiset(coins) - multiset(taken) ==> LargestFirst(taken[i], c))
      && (|taken| > 0 ==> Sum(taken[..|taken| - 1]) < amount)
  {
    var largest := Sort(LargestFirst, coins);
    var k := Needed(largest, amount);
    LargestInOrder(coins);
    LeftOut(largest, multiset(coins), k);
    if k > 0 {
      LastNeeded(largest, amount);
      assert largest[..k][..k - 1] == largest[..k - 1];
    }
  }

  lemma {:induction false} LargestInOrder(coins: seq<Coin>)
    ensures var largest := Sort(LargestFirst, coins);
      multiset(largest) == multiset(coins) && forall i, j :: 0 <= i < j < |largest| ==> LargestFirst(largest[i], largest[j])
  {
    CoinOrdersTotal();
    SortSorts(LargestFirst, coins);
    InOrder(Sort(LargestFirst, coins));
  }

  lemma {:induction false} LastNeeded(s: seq<Coin>, amount: nat)
    requires Needed(s, amount) > 0
    ensures Sum(s[..Needed(s, amount) - 1]) < amount
  {
    NeededCovers(s, amount, Needed(s, amount) - 1);
    SumPrefix(s, Needed(s, amount) - 1, |s|);
  }

  lemma LeftOut(s: seq<Coin>, pool: multiset<Coin>, k: nat)
    requires k <= |s| && multiset(s) == pool
    requires forall i, j :: 0 <= i < j < |s| ==> LargestFirst(s[i], s[j])
    ensures multiset(s[..k]) <= pool
    ensures forall i, c :: 0 <= i < k && c in pool - multiset(s[..k]) ==> LargestFirst(s[..k][i], c)
  {
    assert s == s[..k] + s[k..];
    assert pool - multiset(s[..k]) == multiset(s[k..]);
    forall i, c | 0 <= i < k && c in multiset(s[k..])
      ensures LargestFirst(s[i], c)
    {
      assert c in s[k..];
    }
  }

  lemma {:induction false} InOrder(s: seq<Coin>)
    requires SortedBy(LargestFirst, s)
    ensures forall i, j :: 0 <= i < j < |s| ==> LargestFirst(s[i], s[j])
  {
    if |s| > 0 {
      InOrder(s[1..]);
      forall i, j | 0 <= i < j < |s|
        ensures LargestFirst(s[i], s[j])
      {
        assert s[j] == s[1..][j - 1];
        if i > 0 {
          assert s[i] == s[1..][i - 1];
        }
      }
    }
  }

  /** Largest-first selection does not depend on the order in which the coins are listed. */
  lemma GreedyPermutes(coins: seq<Coin>, coins': seq<Coin>, amount: nat)
    requires multiset(coins) == multiset(coins')
    ensures Greedy(coins, amount) == Greedy(coins', amount)
  {
    CoinOrdersTotal();
    SortPermutes(LargestFirst, coins, coins');
  }

  /** The loop of the greedy selectors: take coins in the order given until they reach the amount. */
  method TakeUntil(sorted: seq<Coin>, amount: nat) returns (chosen: seq<Coin>, total: nat)
    requires Sum(sorted) < U64_RANGE
    ensures chosen == sorted[..Needed(sorted, amount)] && total == Sum(chosen)
  {
    chosen, total := [], 0;
    var i := 0;
    assert sorted[0..] == sorted;
    while i < |sorted| && total < amount
      invariant 0 <= i <= |sorted| && chosen == sorted[..i] && total == Sum(chosen)
      invariant Needed(sorted, amount) == i + Needed(sorted[i..], SaturatingSub(amount, total))
    {
      SumNext(sorted, i);
      SumPrefix(sorted, i + 1, i + 1);
      assert sorted[i..][1..] == sorted[i + 1..] && sorted[..i + 1] == sorted[..i] + [sorted[i]];
      chosen := chosen + [sorted[i]];
      total := SaturatingAdd(total, sorted[i].amount);
      i := i + 1;
    }
  }
}
