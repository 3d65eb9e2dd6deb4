/**
 Coin selection: the exact-fit selector of the RGB inventory (crates/rfq-maker/src/coin_select.rs) and the
 largest-first selectors of BTC (crates/rfq-store/src/btc.rs, crates/rfq-maker/src/lib.rs:1970-1992).
 */
module CoinSelect {
  import opened Options
  import opened Ordering
  import opened Store
  import opened Coins

  const SUBSET_LIMIT_3OFN := 16
  const SUBSET_LIMIT_2OFN := 2000

  datatype Selection = Selection(asset: string, chosen: seq<Outpoint>, totalInput: nat, requested: nat, expectedChange: nat)

  datatype SelectError = Insufficient(wanted: nat, available: nat) | AssetMismatch | ZeroAmount

  /** A row as a coin to pay with, if it is available. */
  function Candidate(u: Utxo): seq<Coin> {
    if u.status.Available? then [Coin(u.amount, u.outpoint)] else []
  }

  function Candidates(rows: seq<Utxo>): seq<Coin> {
    if |rows| == 0 then [] else Candidate(rows[0]) + Candidates(rows[1..])
  }

  predicate OneAsset(asset: string, rows: seq<Utxo>) {
    forall i :: 0 <= i < |rows| ==> rows[i].asset == asset
  }

  /** The first coin from `from` on whose amount satisfies `p`. */
  function Find(s: seq<Coin>, p: nat -> bool, from: nat): (r: Option<nat>)
    requires from <= |s|
    ensures r.Some? ==> from <= r.value < |s| && p(s[r.value].amount) && forall j :: from <= j < r.value ==> !p(s[j].amount)
    ensures r.None? ==> forall j :: from <= j < |s| ==> !p(s[j].amount)
    decreases |s| - from
  {
    if from == |s| then None else if p(s[from].amount) then Some(from) else Find(s, p, from + 1)
  }

  function Equals(amount: nat): nat -> bool {
    a => a == amount
  }

  function Above(amount: nat): nat -> bool {
    a => a > amount
  }

  /** The amount that makes `part` up to `amount`. */
  function Completes(part: nat, amount: nat): nat -> bool {
    a => part + a == amount
  }

  /** The first pair of positions, row by row from row `i` on, whose amounts add up exactly. */
  function PairFrom(s: seq<Coin>, amount: nat, i: nat): (r: Option<(nat, nat)>)
    ensures r.Some? ==> r.value.0 < r.value.1 < |s| && s[r.value.0].amount + s[r.value.1].amount == amount
    decreases |s| - i
  {
    if i >= |s| then None
    else match Find(s, Completes(s[i].amount, amount), i + 1)
      case Some(j) => Some((i, j))
      case None => PairFrom(s, amount, i + 1)
  }

  /** The first triple of positions, row by row from row (i, j) on, whose amounts add up exactly. */
  function TripleFrom(s: seq<Coin>, amount: nat, i: nat, j: nat): (r: Option<(nat, nat, nat)>)
    requires i < j
    ensures r.Some? ==>
      && r.value.0 < r.value.1 < r.value.2 < |s|
      && s[r.value.0].amount + s[r.value.1].amount + s[r.value.2].amount == amount
    decreases |s| - i, |s| - j
  {
    if i >= |s| then None
    else if j >= |s| then TripleFrom(s, amount, i + 1, i + 2)
    else match Find(s, Completes(s[i].amount + s[j].amount, amount), j + 1)
      case Some(k) => Some((i, j, k))
      case None => TripleFrom(s, amount, i, j + 1)
  }

  /** The search misses no pair. */
  lemma {:induction false} PairsComplete(s: seq<Coin>, amount: nat, i: nat, i': nat, j': nat)
    requires i <= i' < j' < |s| && s[i'].amount + s[j'].amount == amount
    ensures PairFrom(s, amount, i).Some?
    decreases |s| - i
  {
    if i < i' {
      PairsComplete(s, amount, i + 1, i', j');
    }
  }

  /** The pair found is the first one, row by row. */
  lemma {:induction false} PairFirst(s: seq<Coin>, amount: nat, i: nat, i': nat, j': nat)
    requires i <= i' < j' < |s| && s[i'].amount + s[j'].amount == amount
    ensures PairFrom(s, amount, i).Some?
    ensures var (a, b) := PairFrom(s, amount, i).value; a < i' || (a == i' && b <= j')
    decreases |s| - i
  {
    if i < i' {
      PairFirst(s, amount, i + 1, i', j');
    }
  }

  /** The search misses no triple. */
  lemma {:induction false} TriplesComplete(s: seq<Coin>, amount: nat, i: nat, j: nat, i': nat, j': nat, k': nat)
    requires i < j && i' < j' < k' < |s| && s[i'].amount + s[j'].amount + s[k'].amount == amount
    requires i < i' || (i == i' && j <= j')
    ensures TripleFrom(s, amount, i, j).Some?
    decreases |s| - i, |s| - j
  {
    if j >= |s| {
      TriplesComplete(s, amount, i + 1, i + 2, i', j', k');
    } else if i < i' || j < j' {
      TriplesComplete(s, amount, i, j + 1, i', j', k');
    }
  }

  /** The triple found is the first one, row by row. */
  lemma {:induction false} TripleFirst(s: seq<Coin>, amount: nat, i: nat, j: nat, i': nat, j': nat, k': nat)
    requires i < j && i' < j' < k' < |s| && s[i'].amount + s[j'].amount + s[k'].amount == amount
    requires i < i' || (i == i' && j <= j')
    ensures TripleFrom(s, amount, i, j).Some?
    ensures var (a, b, c) := TripleFrom(s, amount, i, j).value;
      a < i' || (a == i' && (b < j' || (b == j' && c <= k')))
    decreases |s| - i, |s| - j
  {
    if j >= |s| {
      TripleFirst(s, amount, i + 1, i + 2, i', j', k');
    } else if i < i' || j < j' {
      TripleFirst(s, amount, i, j + 1, i', j', k');
    }
  }

  /** Coins at distinct positions are together worth no more than all of them. */
  lemma {:induction false} Parts(s: seq<Coin>, i: nat, j: nat, k: nat)
    requires i < j < |s| && k < |s|
    ensures s[i].amount + s[j].amount <= Sum(s)
    ensures j < k ==> s[i].amount + s[j].amount + s[k].amount <= Sum(s)
  {
    SumNext(s, i);
    SumNext(s, j);
    SumPrefix(s, i + 1, j);
    SumPrefix(s, j + 1, |s|);
    if j < k {
      SumNext(s, k);
      SumPrefix(s, j + 1, k);
      SumPrefix(s, k + 1, |s|);
    }
  }

  method FindPair(s: seq<Coin>, amount: nat) returns (r: Option<(nat, nat)>)
    requires Sum(s) < U64_RANGE
    ensures r == PairFrom(s, amount, 0)
  {
    for i := 0 to |s|
      invariant PairFrom(s, amount, 0) == PairFrom(s, amount, i)
    {
      for j := i + 1 to |s|
        invariant Find(s, Completes(s[i].amount, amount), i + 1) == Find(s, Completes(s[i].amount, amount), j)
      {
        Parts(s, i, j, j);
        if SaturatingAdd(s[i].amount, s[j].amount) == amount {
          return Some((i, j));
        }
      }
    }
    r := None;
  }

  /** Amounts never fall along the sequence. */
  ghost predicate Ascending(s: seq<Coin>) {
    forall i, j :: 0 <= i <= j < |s| ==> s[i].amount <= s[j].amount
  }

  /** The search over triples, skipping a row whose pair already reaches the amount and leaving a row at the
      first triple beyond it: it finds what trying every triple finds. */
  method FindTriple(s: seq<Coin>, amount: nat) returns (r: Option<(nat, nat, nat)>)
    requires Sum(s) < U64_RANGE && Ascending(s) && amount > 0
    ensures r == TripleFrom(s, amount, 0, 1)
  {
    for i := 0 to |s|
      invariant TripleFrom(s, amount, 0, 1) == TripleFrom(s, amount, i, i + 1)
    {
      for j := i + 1 to |s|
        invariant TripleFrom(s, amount, 0, 1) == TripleFrom(s, amount, i, j)
      {
        var k := FindInRow(s, amount, i, j);
        if k.Some? {
          return Some((i, j, k.value));
        }
      }
    }
    r := None;
  }

  method FindInRow(s: seq<Coin>, amount: nat, i: nat, j: nat) returns (r: Option<nat>)
    requires Sum(s) < U64_RANGE && Ascending(s) && amount > 0 && i < j < |s|
    ensures r == Find(s, Completes(s[i].amount + s[j].amount, amount), j + 1)
  {
    Parts(s, i, j, j);
    var pairSum := SaturatingAdd(s[i].amount, s[j].amount);
    if pairSum >= amount {
      return None;
    }
    for k := j + 1 to |s|
      invariant Find(s, Completes(pairSum, amount), j + 1) == Find(s, Completes(pairSum, amount), k)
    {
      Parts(s, i, j, k);
      var triple := SaturatingAdd(pairSum, s[k].amount);
      if triple == amount {
        return Some(k);
      }
      if triple > amount {
        break;
      }
    }
    r := None;
  }

  // The selection as a whole.

  function Outpoints(coins: seq<Coin>): seq<Outpoint> {
    if |coins| == 0 then [] else [coins[0].outpoint] + Outpoints(coins[1..])
  }

  function Make(asset: string, coins: seq<Coin>, amount: nat): Selection
    requires Sum(coins) >= amount
  {
    Selection(asset, Sort(OutpointLe, Outpoints(coins)), Sum(coins), amount, Sum(coins) - amount)
  }

  /** Outpoint lists in dictionary order. */
  predicate ListLe(a: seq<Outpoint>, b: seq<Outpoint>) {
    |a| == 0 || (|b| != 0 && (if a[0] == b[0] then ListLe(a[1..], b[1..]) else OutpointLe(a[0], b[0])))
  }

  /** The selection with less change, then fewer inputs, then the earlier outpoints. */
  function PickBetter(a: Selection, b: Selection): Selection {
    if a.expectedChange != b.expectedChange then if a.expectedChange < b.expectedChange then a else b
    else if |a.chosen| != |b.chosen| then if |a.chosen| < |b.chosen| then a else b
    else if ListLe(a.chosen, b.chosen) then a
    else b
  }

  lemma SumOfFew(a: Coin, b: Coin, c: Coin)
    ensures Sum([a]) == a.amount && Sum([a, b]) == a.amount + b.amount
    ensures Sum([a, b, c]) == a.amount + b.amount + c.amount
  {
    assert [a, b] == [a] + [b] && [a, b, c] == [a, b] + [c];
    SumConcat([a], [b]);
    SumConcat([a, b], [c]);
  }

  /** The coins of an exact match, if one of the searches that are made finds one. */
  function Exact(s: seq<Coin>, amount: nat): (r: Option<seq<Coin>>)
    ensures r.Some? ==> Sum(r.value) == amount
  {
    match Find(s, Equals(amount), 0)
    case Some(i) => Some([s[i]])
    case None =>
      match (if |s| <= SUBSET_LIMIT_2OFN then PairFrom(s, amount, 0) else None)
      case Some(p) => SumOfFew(s[p.0], s[p.1], s[p.1]); Some([s[p.0], s[p.1]])
      case None =>
        match (if |s| <= SUBSET_LIMIT_3OFN then TripleFrom(s, amount, 0, 1) else None)
        case Some(t) => SumOfFew(s[t.0], s[t.1], s[t.2]); Some([s[t.0], s[t.1], s[t.2]])
        case None => None
  }

  /** The coins selected from a smallest-first list. */
  function Picked(s: seq<Coin>, amount: nat): seq<Coin> {
    match Exact(s, amount)
    case Some(coins) => coins
    case None =>
      match Find(s, Above(amount), 0)
      case Some(i) => [s[i]]
      case None => Greedy(s, amount)
  }

  /** The coins picked are coins of the list and cover the amount, so the change never underflows. */
  lemma {:induction false} PickedCovers(s: seq<Coin>, amount: nat)
    requires Sum(s) >= amount
    ensures Sum(Picked(s, amount)) >= amount && multiset(Picked(s, amount)) <= multiset(s)
  {
    GreedyFewest(s, amount, s);
    match Exact(s, amount)
    case Some(coins) =>
      ExactFromList(s, amount);
    case None =>
      match Find(s, Above(amount), 0)
      case Some(i) => OnePosition(s, i);
      case None =>
  }

  lemma OnePosition(s: seq<Coin>, i: nat)
    requires i < |s|
    ensures multiset([s[i]]) <= multiset(s) && Sum([s[i]]) == s[i].amount
  {
    assert s[i] in multiset(s);
  }

  lemma TwoPositions(s: seq<Coin>, i: nat, j: nat)
    requires i < j < |s|
    ensures multiset([s[i], s[j]]) <= multiset(s)
  {
    assert s == s[..i] + [s[i]] + s[i + 1..j] + [s[j]] + s[j + 1..];
  }

  lemma ThreePositions(s: seq<Coin>, i: nat, j: nat, k: nat)
    requires i < j < k < |s|
    ensures multiset([s[i], s[j], s[k]]) <= multiset(s)
  {
    assert s == s[..k] + [s[k]] + s[k + 1..];
    TwoPositions(s[..k], i, j);
    assert [s[i], s[j], s[k]] == [s[i], s[j]] + [s[k]];
  }

  lemma ExactFromList(s: seq<Coin>, amount: nat)
    requires Exact(s, amount).Some?
    ensures multiset(Exact(s, amount).value) <= multiset(s)
  {
    var single, pair, triple := Find(s, Equals(amount), 0), PairFrom(s, amount, 0), TripleFrom(s, amount, 0, 1);
    if single.Some? {
      OnePosition(s, single.value);
    } else if |s| <= SUBSET_LIMIT_2OFN && pair.Some? {
      TwoPositions(s, pair.value.0, pair.value.1);
    } else {
      ThreePositions(s, triple.value.0, triple.value.1, triple.value.2);
    }
  }

  /** The selection the program is specified to make. */
  function Selected(asset: string, amount: nat, rows: seq<Utxo>): Result<Selection, SelectError> {
    var coins := Candidates(rows);
    if amount == 0 then Failure(ZeroAmount)
    else if !OneAsset(asset, rows) then Failure(AssetMismatch)
    else if Sum(coins) < amount then Failure(Insufficient(amount, Sum(coins)))
    else
      SortedCoins(coins);
      PickedCovers(Sort(SmallestFirst, coins), amount);
      Success(Make(asset, Picked(Sort(SmallestFirst, coins), amount), amount))
  }

  lemma {:induction false} SortedCoins(coins: seq<Coin>)
    ensures var s := Sort(SmallestFirst, coins);
      && SortedBy(SmallestFirst, s) && multiset(s) == multiset(coins) && |s| == |coins|
      && Sum(s) == Sum(coins)
  {
    CoinOrdersTotal();
    SortSorts(SmallestFirst, coins);
    SumPermutes(Sort(SmallestFirst, coins), coins);
  }

  lemma {:induction false} SmallestAscends(s: seq<Coin>)
    requires SortedBy(SmallestFirst, s)
    ensures Ascending(s)
  {
    if |s| > 0 {
      SmallestAscends(s[1..]);
      forall j | 0 < j < |s|
        ensures s[0].amount <= s[j].amount
      {
        assert s[j] in s[1..] && SmallestFirst(s[0], s[j]);
      }
      assert forall j :: 0 < j < |s| ==> s[j] == s[1..][j - 1];
    }
  }

  /** Where one coin covers the amount, largest-first selection never beats the smallest such coin: it takes
      a single coin too, and one with no less change. */
  lemma {:induction false} SingleWins(asset: string, s: seq<Coin>, amount: nat, i: nat)
    requires SortedBy(SmallestFirst, s) && amount > 0
    requires Find(s, Equals(amount), 0).None? && Find(s, Above(amount), 0) == Some(i)
    ensures Sum([s[i]]) >= amount && Sum(Greedy(s, amount)) >= amount
    ensures PickBetter(Make(asset, [s[i]], amount), Make(asset, Greedy(s, amount), amount)) == Make(asset, [s[i]], amount)
  {
    var largest := Sort(LargestFirst, s);
    GreedyIsLargest(s, amount, i);
    var top := largest[0];
    var p :| 0 <= p < |s| && s[p] == top;
    SmallestAscends(s);
    if top.amount == s[i].amount {
      CoinOrdersTotal();
      LaterInOrder(s, i, p);
      OutpointLeTotal();
      assert OutpointLe(s[i].outpoint, top.outpoint) && OutpointLe(top.outpoint, s[i].outpoint);
    }
    OnePosition(s, i);
    OnePosition(s, p);
    SingleOutpoint(s[i]);
    SingleOutpoint(top);
  }

  lemma SingleOutpoint(c: Coin)
    ensures Outpoints([c]) == [c.outpoint] && Sort(OutpointLe, [c.outpoint]) == [c.outpoint]
  {
    assert Outpoints([]) == [];
    assert Sort(OutpointLe, []) == [];
  }

  lemma {:induction false} LaterInOrder(s: seq<Coin>, i: nat, p: nat)
    requires SortedBy(SmallestFirst, s) && IsTotal(SmallestFirst) && i <= p < |s|
    ensures SmallestFirst(s[i], s[p])
  {
    if i > 0 {
      LaterInOrder(s[1..], i - 1, p - 1);
    } else if p > 0 {
      assert s[p] in s[1..];
    } else {
      assert SmallestFirst(s[0], s[0]);
    }
  }

  lemma {:induction false} GreedyIsLargest(s: seq<Coin>, amount: nat, i: nat)
    requires SortedBy(SmallestFirst, s) && amount > 0
    requires Find(s, Equals(amount), 0).None? && Find(s, Above(amount), 0) == Some(i)
    ensures var largest := Sort(LargestFirst, s);
      && |largest| == |s| && Greedy(s, amount) == [largest[0]]
      && LargestFirst(largest[0], s[i])
      && exists p :: i <= p < |s| && s[p] == largest[0]
  {
    var largest := Sort(LargestFirst, s);
    CoinOrdersTotal();
    SortSorts(LargestFirst, s);
    assert s[i] in multiset(largest) && largest[0] in multiset(s);
    assert s[i] in largest && largest[0] in s;
    FirstOfAll(LargestFirst, largest[0], largest);
    var p :| 0 <= p < |s| && s[p] == largest[0];
    assert p >= i;
    assert Needed(largest, amount) == 1;
  }

  /** Takes coins until they reach the amount, at least one. */
  method TakeLargest(sorted: seq<Coin>, amount: nat) returns (chosen: seq<Coin>, total: nat)
    requires Sum(sorted) < U64_RANGE && amount > 0
    ensures chosen == sorted[..Needed(sorted, amount)] && total == Sum(chosen)
  {
    chosen, total := [], 0;
    assert sorted[0..] == sorted;
    for i := 0 to |sorted|
      invariant chosen == sorted[..i] && total == Sum(chosen) && total < amount
      invariant Needed(sorted, amount) == i + Needed(sorted[i..], amount - total)
    {
      SumNext(sorted, i);
      SumPrefix(sorted, i + 1, i + 1);
      assert sorted[i..][1..] == sorted[i + 1..] && sorted[..i + 1] == sorted[..i] + [sorted[i]];
      chosen := chosen + [sorted[i]];
      total := SaturatingAdd(total, sorted[i].amount);
      if total >= amount {
        break;
      }
    }
  }

  /** The exact-fit selector: exact single, exact pair, exact triple, then the better of the smallest single
      coin that covers the amount and largest-first. */
  method Select(asset: string, amount: nat, available: seq<Utxo>) returns (r: Result<Selection, SelectError>)
    requires Sum(Candidates(available)) < U64_RANGE
    ensures r == Selected(asset, amount, available)
  {
    if amount == 0 {
      return Failure(ZeroAmount);
    }
    if exists i :: 0 <= i < |available| && available[i].asset != asset {
      return Failure(AssetMismatch);
    }
    var unsorted := Candidates(available);
    var total := Sum(unsorted);
    if total < amount {
      return Failure(Insufficient(amount, total));
    }
    var candidates := Sort(SmallestFirst, unsorted);
    SortedCoins(unsorted);
    var coins := SelectSorted(asset, amount, candidates);
    r := Success(coins);
  }

  method SelectSorted(asset: string, amount: nat, candidates: seq<Coin>) returns (r: Selection)
    requires SortedBy(SmallestFirst, candidates) && amount > 0 && amount <= Sum(candidates) < U64_RANGE
    ensures Sum(Picked(candidates, amount)) >= amount && r == Make(asset, Picked(candidates, amount), amount)
  {
    PickedCovers(candidates, amount);
    var exact := SelectExact(amount, candidates);
    if exact.Some? {
      return Make(asset, exact.value, amount);
    }
    GreedyFewest(candidates, amount, candidates);
    CoinOrdersTotal();
    SortSorts(LargestFirst, candidates);
    SumPermutes(Sort(LargestFirst, candidates), candidates);
    var taken, totalInput := TakeLargest(Sort(LargestFirst, candidates), amount);
    var greedy := Selection(asset, Sort(OutpointLe, Outpoints(taken)), totalInput, amount, totalInput - amount);
    var single := Find(candidates, Above(amount), 0);
    if single.None? {
      return greedy;
    }
    OnePosition(candidates, single.value);
    SingleWins(asset, candidates, amount, single.value);
    r := PickBetter(Make(asset, [candidates[single.value]], amount), greedy);
  }

  method SelectExact(amount: nat, candidates: seq<Coin>) returns (r: Option<seq<Coin>>)
    requires SortedBy(SmallestFirst, candidates) && amount > 0 && Sum(candidates) < U64_RANGE
    ensures r == Exact(candidates, amount)
  {
    SmallestAscends(candidates);
    var single := Find(candidates, Equals(amount), 0);
    if single.Some? {
      return Some([candidates[single.value]]);
    }
    if |candidates| <= SUBSET_LIMIT_2OFN {
      var pair := FindPair(candidates, amount);
      if pair.Some? {
        return Some([candidates[pair.value.0], candidates[pair.value.1]]);
      }
    }
    if |candidates| <= SUBSET_LIMIT_3OFN {
      var triple := FindTriple(candidates, amount);
      if triple.Some? {
        return Some([candidates[triple.value.0], candidates[triple.value.1], candidates[triple.value.2]]);
      }
    }
    r := None;
  }
}
