/** What the selectors are for: sound, exact where an exact match exists, minimal, and independent of order. */
module CoinSelectProperties {
  import opened Options
  import opened Ordering
  import opened Store
  import opened Coins
  import opened CoinSelect

  /** Appending and reordering do not change how often a coin occurs. */
  lemma SwapContents<T>(a: multiset<T>, b: multiset<T>, c: multiset<T>)
    ensures a + (b + c) == (a + b) + c
  {
  }

  lemma {:induction false} OutpointsWithout(pool: seq<Coin>, i: nat)
    requires i < |pool|
    ensures multiset(Outpoints(pool)) == multiset(Outpoints(Without(pool, i))) + multiset{pool[i].outpoint}
  {
    if i == 0 {
      assert Without(pool, 0) == pool[1..];
    } else {
      OutpointsWithout(pool[1..], i - 1);
      var without := Without(pool, i);
      assert without[0] == pool[0] && without[1..] == Without(pool[1..], i - 1);
      SwapContents(multiset{pool[0].outpoint}, multiset(Outpoints(without[1..])), multiset{pool[i].outpoint});
    }
  }

  /** Coins chosen from a pool have outpoints chosen from the pool's. */
  lemma {:induction false} OutpointsWithin(chosen: seq<Coin>, pool: seq<Coin>)
    requires multiset(chosen) <= multiset(pool)
    ensures multiset(Outpoints(chosen)) <= multiset(Outpoints(pool))
    decreases |chosen|
  {
    if |chosen| > 0 {
      var i := Locate(chosen, pool);
      OutpointsWithin(chosen[1..], Without(pool, i));
      OutpointsWithout(pool, i);
    }
  }

  /** Selection succeeds exactly when the amount is positive, the rows are of the asset and the available
      ones cover the amount. What it chooses are available outpoints, each at most as often as it is
      available, whose amounts add up to the input, which is the amount plus the change. */
  lemma {:induction false} SelectionSound(asset: string, amount: nat, rows: seq<Utxo>)
    ensures var r := Selected(asset, amount, rows);
      && (r.Success? <==>
            && amount > 0 && (forall i :: 0 <= i < |rows| ==> rows[i].asset == asset)
            && Sum(Candidates(rows)) >= amount)
      && (r == Failure(ZeroAmount) <==> amount == 0)
      && (r == Failure(AssetMismatch) <==> amount > 0 && exists i :: 0 <= i < |rows| && rows[i].asset != asset)
      && (r.Failure? && r.error.Insufficient? ==> r.error == Insufficient(amount, Sum(Candidates(rows))))
      && (r.Success? ==>
            && multiset(r.value.chosen) <= multiset(Outpoints(Candidates(rows)))
            && r.value.asset == asset && r.value.requested == amount
            && SortedBy(OutpointLe, r.value.chosen)
            && r.value.totalInput == amount + r.value.expectedChange
            && exists coins :: multiset(coins) <= multiset(Candidates(rows)) && Sum(coins) == r.value.totalInput
                 && multiset(Outpoints(coins)) == multiset(r.value.chosen))
  {
    var r, pool := Selected(asset, amount, rows), Candidates(rows);
    if r.Success? {
      var sorted := Sort(SmallestFirst, pool);
      SortedCoins(pool);
      PickedCovers(sorted, amount);
      var coins := Picked(sorted, amount);
      OutpointsWithin(coins, pool);
      OutpointLeTotal();
      SortSorts(OutpointLe, Outpoints(coins));
    }
  }

  /** An exact match the searches cover: one coin, two among at most 2000, or three among at most 16. */
  ghost predicate ExactMatch(pool: seq<Coin>, amount: nat, match': seq<Coin>) {
    && multiset(match') <= multiset(pool) && Sum(match') == amount
    && (|match'| == 1 || (|match'| == 2 && |pool| <= 2000) || (|match'| == 3 && |pool| <= 16))
  }

  /** A position of the pool, counted without position `a`. */
  function Shifted(a: nat, i: nat): nat {
    if i < a then i else i + 1
  }

  /** The positions of two chosen coins in their pool. */
  lemma Positions2(s: seq<Coin>, t: seq<Coin>) returns (i: nat, j: nat)
    requires |t| == 2 && multiset(t) <= multiset(s)
    ensures i < j < |s| && s[i].amount + s[j].amount == t[0].amount + t[1].amount
  {
    var a := Locate(t, s);
    var b := Locate(t[1..], Without(s, a));
    var b' := Shifted(a, b);
    assert s[b'] == t[1];
    if a < b' { i, j := a, b'; } else { i, j := b', a; }
  }

  lemma Positions3(s: seq<Coin>, t: seq<Coin>) returns (i: nat, j: nat, k: nat)
    requires |t| == 3 && multiset(t) <= multiset(s)
    ensures i < j < k < |s|
    ensures s[i].amount + s[j].amount + s[k].amount == t[0].amount + t[1].amount + t[2].amount
  {
    var a := Locate(t, s);
    var rest := Without(s, a);
    var b, c := Positions2(rest, t[1..]);
    assert s[Shifted(a, b)] == rest[b] && s[Shifted(a, c)] == rest[c];
    if a <= b { i, j, k := a, b + 1, c + 1; }
    else if a <= c { i, j, k := b, a, c + 1; }
    else { i, j, k := b, c, a; }
  }

  lemma ExactFound(s: seq<Coin>, amount: nat, match': seq<Coin>)
    requires ExactMatch(s, amount, match')
    ensures Exact(s, amount).Some?
  {
    if |match'| == 1 {
      var i := Locate(match', s);
      assert match' == [match'[0]];
      SumOfFew(match'[0], match'[0], match'[0]);
    } else if |match'| == 2 {
      PairFound(s, amount, match');
    } else {
      TripleFound(s, amount, match');
    }
  }

  lemma {:induction false} PairFound(s: seq<Coin>, amount: nat, match': seq<Coin>)
    requires |match'| == 2 && multiset(match') <= multiset(s) && Sum(match') == amount
    ensures PairFrom(s, amount, 0).Some?
  {
    var i, j := Positions2(s, match');
    assert match' == [match'[0], match'[1]];
    SumOfFew(match'[0], match'[1], match'[1]);
    PairsComplete(s, amount, 0, i, j);
  }

  lemma {:induction false} TripleFound(s: seq<Coin>, amount: nat, match': seq<Coin>)
    requires |match'| == 3 && multiset(match') <= multiset(s) && Sum(match') == amount
    ensures TripleFrom(s, amount, 0, 1).Some?
  {
    var i, j, k := Positions3(s, match');
    assert match' == [match'[0], match'[1], match'[2]];
    SumOfFew(match'[0], match'[1], match'[2]);
    TriplesComplete(s, amount, 0, 1, i, j, k);
  }

  /** The searches find something exactly if there is such a match. */
  lemma ExactIff(s: seq<Coin>, amount: nat)
    ensures Exact(s, amount).Some? <==> exists match' :: ExactMatch(s, amount, match')
  {
    if Exact(s, amount).Some? {
      var single, pair, triple := Find(s, Equals(amount), 0), PairFrom(s, amount, 0), TripleFrom(s, amount, 0, 1);
      ExactFromList(s, amount);
      assert ExactMatch(s, amount, Exact(s, amount).value);
    } else if match' :| ExactMatch(s, amount, match') {
      ExactFound(s, amount, match');
    }
  }

  /** A single coin goes before a pair and a pair before a triple: no exact match within the limits has fewer coins
      than the selection. */
  lemma {:induction false} FewestExact(asset: string, amount: nat, rows: seq<Utxo>, match': seq<Coin>)
    requires Selected(asset, amount, rows).Success?
    requires ExactMatch(Candidates(rows), amount, match')
    ensures |Selected(asset, amount, rows).value.chosen| <= |match'|
  {
    var s := Sort(SmallestFirst, Candidates(rows));
    SortedCoins(Candidates(rows));
    ExactFound(s, amount, match');
    ExactFewest(s, amount, match');
    OutpointsSize(Exact(s, amount).value);
    OutpointLeTotal();
    SortSorts(OutpointLe, Outpoints(Exact(s, amount).value));
  }

  lemma ExactFewest(s: seq<Coin>, amount: nat, match': seq<Coin>)
    requires ExactMatch(s, amount, match') && Exact(s, amount).Some?
    ensures |Exact(s, amount).value| <= |match'|
  {
    if |match'| == 1 {
      var i := Locate(match', s);
      assert match' == [match'[0]];
      SumOfFew(match'[0], match'[0], match'[0]);
    } else if |match'| == 2 {
      PairFound(s, amount, match');
    }
  }

  /** The coins to choose from are the available rows. */
  lemma {:induction false} CandidatesMeaning(rows: seq<Utxo>, c: Coin)
    ensures c in Candidates(rows) <==>
      exists i :: 0 <= i < |rows| && rows[i].status == Available && c == Coin(rows[i].amount, rows[i].outpoint)
  {
    if |rows| > 0 {
      CandidatesMeaning(rows[1..], c);
      assert forall i :: 1 <= i < |rows| ==> rows[i] == rows[1..][i - 1];
      assert c in Candidates(rows) <==> c in Candidate(rows[0]) || c in Candidates(rows[1..]);
      if c in Candidates(rows[1..]) {
        var i :| 0 <= i < |rows[1..]| && rows[1..][i].status == Available
          && c == Coin(rows[1..][i].amount, rows[1..][i].outpoint);
        assert rows[i + 1] == rows[1..][i];
      }
    }
  }

  /** No change is made whenever such an exact match exists, whatever rows the search skips. */
  lemma {:induction false} ExactMatchWins(asset: string, amount: nat, rows: seq<Utxo>, match': seq<Coin>)
    requires Selected(asset, amount, rows).Success?
    requires ExactMatch(Candidates(rows), amount, match')
    ensures Selected(asset, amount, rows).value.expectedChange == 0
  {
    SortedCoins(Candidates(rows));
    ExactFound(Sort(SmallestFirst, Candidates(rows)), amount, match');
  }

  lemma CoverPicked(s: seq<Coin>, amount: nat, p: nat) returns (best: Coin)
    requires SortedBy(SmallestFirst, s) && Exact(s, amount).None?
    requires p < |s| && s[p].amount > amount
    ensures best in s && best.amount > amount && SmallestFirst(best, s[p]) && Picked(s, amount) == [best]
  {
    var i := Find(s, Above(amount), 0).value;
    best := s[i];
    CoinOrdersTotal();
    LaterInOrder(s, i, p);
  }

  /** Without an exact match, a single coin that covers the amount is used, and no other covering coin is
      smaller or, at the same amount, has an earlier outpoint. */
  lemma SmallestCoverWins(asset: string, amount: nat, rows: seq<Utxo>, c: Coin) returns (best: Coin)
    requires Selected(asset, amount, rows).Success?
    requires Exact(Sort(SmallestFirst, Candidates(rows)), amount).None?
    requires c in Candidates(rows) && c.amount > amount
    ensures best in Candidates(rows) && amount < best.amount && SmallestFirst(best, c)
    ensures Selected(asset, amount, rows).value == Selection(asset, [best.outpoint], best.amount, amount, best.amount - amount)
  {
    var s := Sort(SmallestFirst, Candidates(rows));
    SortedCoins(Candidates(rows));
    var p := Locate([c], s) by {
      assert c in multiset(Candidates(rows));
    }
    best := CoverPicked(s, amount, p);
    assert best in multiset(s) && best in multiset(Candidates(rows));
    OnePosition([best], 0);
    SingleOutpoint(best);
  }

  /** Where no single coin reaches the amount and no exact match is found, no choice of coins that covers it
      uses fewer inputs. */
  lemma {:induction false} FewestInputs(asset: string, amount: nat, rows: seq<Utxo>, other: seq<Coin>)
    requires Selected(asset, amount, rows).Success?
    requires Exact(Sort(SmallestFirst, Candidates(rows)), amount).None?
    requires forall c :: c in Candidates(rows) ==> c.amount <= amount
    requires multiset(other) <= multiset(Candidates(rows)) && Sum(other) >= amount
    ensures |Selected(asset, amount, rows).value.chosen| <= |other|
  {
    var s := Sort(SmallestFirst, Candidates(rows));
    SortedCoins(Candidates(rows));
    forall i | 0 <= i < |s|
      ensures s[i].amount <= amount
    {
      assert s[i] in multiset(Candidates(rows));
    }
    GreedyFewest(s, amount, other);
    OutpointsSize(Greedy(s, amount));
    OutpointLeTotal();
    SortSorts(OutpointLe, Outpoints(Greedy(s, amount)));
  }

  lemma {:induction false} OutpointsSize(s: seq<Coin>)
    ensures |Outpoints(s)| == |s|
  {
    if |s| > 0 {
      OutpointsSize(s[1..]);
    }
  }

  lemma {:induction false} CandidatesWithout(rows: seq<Utxo>, i: nat)
    requires i < |rows|
    ensures multiset(Candidates(rows)) == multiset(Candidates(Without(rows, i))) + multiset(Candidate(rows[i]))
  {
    if i == 0 {
      assert Without(rows, 0) == rows[1..];
    } else {
      CandidatesWithout(rows[1..], i - 1);
      var without := Without(rows, i);
      assert without[0] == rows[0] && without[1..] == Without(rows[1..], i - 1);
      SwapContents(multiset(Candidate(rows[0])), multiset(Candidates(without[1..])), multiset(Candidate(rows[i])));
    }
  }

  lemma {:induction false} CandidatesPermute(s: seq<Utxo>, t: seq<Utxo>)
    requires multiset(s) == multiset(t)
    ensures multiset(Candidates(s)) == multiset(Candidates(t))
    decreases |s|
  {
    if |s| == 0 {
      assert |multiset(t)| == 0;
    } else {
      var i := Locate(s, t);
      CandidatesWithout(s, 0);
      CandidatesWithout(t, i);
      WithoutContents(s, 0);
      WithoutContents(t, i);
      assert Without(s, 0) == s[1..];
      CandidatesPermute(s[1..], Without(t, i));
    }
  }

  /** The selection is the same for every order in which a hash map may list its rows. */
  lemma SelectionPermutes(asset: string, amount: nat, rows: seq<Utxo>, rows': seq<Utxo>)
    requires multiset(rows) == multiset(rows')
    ensures Selected(asset, amount, rows) == Selected(asset, amount, rows')
  {
    CandidatesPermute(rows, rows');
    SumPermutes(Candidates(rows), Candidates(rows'));
    CoinOrdersTotal();
    SortPermutes(SmallestFirst, Candidates(rows), Candidates(rows'));
    assert OneAsset(asset, rows) <==> OneAsset(asset, rows') by {
      assert forall i :: 0 <= i < |rows| ==> rows[i] in multiset(rows);
      assert forall i :: 0 <= i < |rows'| ==> rows'[i] in multiset(rows');
    }
  }

  // Largest-first selection of BTC.

  datatype BtcSelection = BtcSelection(chosen: seq<Outpoint>, requestedSats: nat, totalChosenSats: nat)

  datatype BtcSelectError = BtcInsufficient(requested: nat, available: nat)

  /** The maker's own coins: fails exactly if they do not cover the request, and otherwise takes the fewest
      that do (`Coins.GreedyFewest`), in the same order whatever order they are listed in
      (`Coins.GreedyPermutes`). */
  method SelectLargestFirst(requestedSats: nat, available: seq<Coin>) returns (r: Result<BtcSelection, BtcSelectError>)
    requires Sum(available) < U64_RANGE
    ensures r.Failure? <==> Sum(available) < requestedSats
    ensures r.Failure? ==> r.error == BtcInsufficient(requestedSats, Sum(available))
    ensures r.Success? ==>
      && r.value == BtcSelection(Outpoints(Greedy(available, requestedSats)), requestedSats, Sum(Greedy(available, requestedSats)))
      && r.value.totalChosenSats >= requestedSats
      && multiset(r.value.chosen) <= multiset(Outpoints(available))
  {
    var totalAvailable := Sum(available);
    if totalAvailable < requestedSats {
      return Failure(BtcInsufficient(requestedSats, totalAvailable));
    }
    LargestSum(available);
    var chosen, total := TakeUntil(Sort(LargestFirst, available), requestedSats);
    GreedyFewest(available, requestedSats, available);
    OutpointsWithin(chosen, available);
    r := Success(BtcSelection(Outpoints(chosen), requestedSats, total));
  }

  lemma {:induction false} LargestSum(coins: seq<Coin>)
    ensures Sum(Sort(LargestFirst, coins)) == Sum(coins)
  {
    CoinOrdersTotal();
    SortSorts(LargestFirst, coins);
    SumPermutes(Sort(LargestFirst, coins), coins);
  }

  /** The taker's declared coins: the same, with no error to report. */
  method SelectBtcInputs(available: seq<Coin>, targetSats: nat) returns (r: Option<seq<Coin>>)
    requires Sum(available) < U64_RANGE
    ensures r.Some? <==> Sum(available) >= targetSats
    ensures r.Some? ==> r.value == Greedy(available, targetSats) && Sum(r.value) >= targetSats
  {
    LargestSum(available);
    var chosen, total := TakeUntil(Sort(LargestFirst, available), targetSats);
    GreedyFewest(available, targetSats, available);
    r := if total >= targetSats then Some(chosen) else None;
  }
}
