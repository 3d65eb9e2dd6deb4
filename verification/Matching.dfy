/**
 Covering target amounts with pieces: a piece covers one target no larger than itself. The greedy matching
 of `ladder_deficit` (crates/rfq-maker/src/rebalance.rs:96-118) is a maximum one.
 */
module Matching {
  import opened Ordering

  predicate Le(a: nat, b: nat) {
    a <= b
  }

  lemma LeTotal()
    ensures IsTotal(Le)
  {
  }

  function Total(s: seq<nat>): nat {
    if |s| == 0 then 0 else s[0] + Total(s[1..])
  }

  lemma {:induction false} TotalConcat(s: seq<nat>, t: seq<nat>)
    ensures Total(s + t) == Total(s) + Total(t)
  {
    if |s| == 0 {
      assert s + t == t;
    } else {
      assert (s + t)[1..] == s[1..] + t;
      TotalConcat(s[1..], t);
    }
  }

  lemma {:induction false} TotalWithout(s: seq<nat>, i: nat)
    requires i < |s|
    ensures Total(s) == s[i] + Total(Without(s, i))
  {
    if i == 0 {
      assert Without(s, 0) == s[1..];
    } else {
      TotalWithout(s[1..], i - 1);
      assert Without(s, i)[0] == s[0] && Without(s, i)[1..] == Without(s[1..], i - 1);
    }
  }

  /** `p[i]` covers `t[i]`: distinct pieces for distinct targets. */
  ghost predicate Covers(pieces: multiset<nat>, targets: multiset<nat>, p: seq<nat>, t: seq<nat>) {
    && |p| == |t| && multiset(p) <= pieces && multiset(t) <= targets
    && forall i :: 0 <= i < |p| ==> t[i] <= p[i]
  }

  /** How many targets the greedy matching covers, both lists smallest first: they are the smallest ones. */
  function Covered(pieces: seq<nat>, targets: seq<nat>): (c: nat)
    ensures c <= |targets| && c <= |pieces|
  {
    if |pieces| == 0 || |targets| == 0 then 0
    else if pieces[0] < targets[0] then Covered(pieces[1..], targets)
    else 1 + Covered(pieces[1..], targets[1..])
  }

  lemma FirstApart<T>(s: seq<T>)
    requires |s| > 0
    ensures multiset(s) == multiset{s[0]} + multiset(s[1..])
  {
    assert s == [s[0]] + s[1..];
  }

  /** The greedy matching is one. */
  lemma {:induction false} GreedyCovers(pieces: seq<nat>, targets: seq<nat>) returns (p: seq<nat>)
    ensures Covers(multiset(pieces), multiset(targets), p, targets[..Covered(pieces, targets)])
  {
    var c := Covered(pieces, targets);
    if |pieces| == 0 || |targets| == 0 {
      p := [];
    } else {
      FirstApart(pieces);
      if pieces[0] < targets[0] {
        p := GreedyCovers(pieces[1..], targets);
      } else {
        var rest := GreedyCovers(pieces[1..], targets[1..]);
        p := [pieces[0]] + rest;
        FirstApart(targets);
        assert targets[..c] == [targets[0]] + targets[1..][..c - 1];
      }
    }
  }

  lemma Avoids(m: multiset<nat>, whole: multiset<nat>, x: nat)
    requires m <= whole && x !in m
    ensures m <= whole - multiset{x}
  {
    assert m[x] == 0;
  }

  lemma LessOne(m: multiset<nat>, whole: multiset<nat>, x: nat)
    requires m <= whole
    ensures m - multiset{x} <= whole - multiset{x}
  {
  }

  lemma DropPair(pieces: multiset<nat>, targets: multiset<nat>, p: seq<nat>, t: seq<nat>, j: nat)
    requires Covers(pieces, targets, p, t) && j < |t|
    ensures Covers(pieces - multiset{p[j]}, targets - multiset{t[j]}, Without(p, j), Without(t, j))
    ensures multiset(Without(t, j)) == multiset(t) - multiset{t[j]}
  {
    WithoutContents(p, j);
    WithoutContents(t, j);
    LessOne(multiset(p), pieces, p[j]);
    LessOne(multiset(t), targets, t[j]);
  }

  lemma UpdatedContents(s: seq<nat>, j: nat, x: nat)
    requires j < |s|
    ensures multiset(s[j := x]) == multiset(s) - multiset{s[j]} + multiset{x}
  {
  }

  /** One target can be left out of a matching at the cost of at most one pair. */
  lemma DropTarget(pieces: multiset<nat>, targets: multiset<nat>, p: seq<nat>, t: seq<nat>, b: nat)
      returns (p': seq<nat>, t': seq<nat>)
    requires Covers(pieces, targets, p, t)
    ensures Covers(pieces, targets - multiset{b}, p', t') && |t'| + 1 >= |t|
  {
    if b in t {
      var j :| 0 <= j < |t| && t[j] == b;
      DropPair(pieces, targets, p, t, j);
      p', t' := Without(p, j), Without(t, j);
    } else {
      p', t' := p, t;
      Avoids(multiset(t), targets, b);
    }
  }

  lemma Reused(t: seq<nat>, i: nat, j: nat)
    requires i < |t| && j < |t| - 1
    ensures var t' := Without(t, i);
      multiset(t'[j := t[i]]) == multiset(t) - multiset{t'[j]}
  {
    var t' := Without(t, i);
    WithoutContents(t, i);
    UpdatedContents(t', j, t[i]);
    assert t'[j] in multiset(t') && t[i] in multiset(t);
  }

  /** One pair goes; if the target to leave out is matched elsewhere, the freed target takes its place, where
      it must fit. */
  lemma Reassign(pieces: multiset<nat>, targets: multiset<nat>, p: seq<nat>, t: seq<nat>, i: nat, b: nat)
      returns (p': seq<nat>, t': seq<nat>)
    requires Covers(pieces, targets, p, t) && i < |p|
    requires forall j :: 0 <= j < |p| && t[j] == b ==> t[i] <= p[j]
    ensures Covers(pieces - multiset{p[i]}, targets - multiset{b}, p', t') && |t'| + 1 >= |t|
  {
    DropPair(pieces, targets, p, t, i);
    p', t' := Without(p, i), Without(t, i);
    if b in t' {
      var j :| 0 <= j < |t'| && t'[j] == b;
      assert p'[j] == p[if j < i then j else j + 1] && t'[j] == t[if j < i then j else j + 1];
      Reused(t, i, j);
      LessOne(multiset(t), targets, b);
      t' := t'[j := t[i]];
    } else {
      Avoids(multiset(t'), targets, b);
    }
  }

  /** The exchange: giving the smallest piece to any target costs a matching at most one pair. */
  lemma Exchange(pieces: multiset<nat>, targets: multiset<nat>, p: seq<nat>, t: seq<nat>, a: nat, b: nat)
      returns (p': seq<nat>, t': seq<nat>)
    requires Covers(pieces, targets, p, t)
    requires forall x :: x in pieces ==> a <= x
    ensures Covers(pieces - multiset{a}, targets - multiset{b}, p', t') && |t'| + 1 >= |t|
  {
    if a in p {
      var i :| 0 <= i < |p| && p[i] == a;
      assert forall j :: 0 <= j < |p| ==> p[j] in multiset(p) && p[j] in pieces;
      p', t' := Reassign(pieces, targets, p, t, i, b);
    } else {
      Avoids(multiset(p), pieces, a);
      p', t' := DropTarget(pieces - multiset{a}, targets, p, t, b);
    }
  }

  /** No matching covers more targets than the greedy one. */
  lemma {:induction false} GreedyOptimal(pieces: seq<nat>, targets: seq<nat>, p: seq<nat>, t: seq<nat>)
    requires SortedBy(Le, pieces) && SortedBy(Le, targets)
    requires Covers(multiset(pieces), multiset(targets), p, t)
    ensures |t| <= Covered(pieces, targets)
    decreases |pieces|
  {
    if |t| > 0 {
      assert p[0] in multiset(p) && t[0] in multiset(t);
      FirstApart(pieces);
      FirstApart(targets);
      if pieces[0] < targets[0] {
        TooSmall(pieces, targets, p, t);
        GreedyOptimal(pieces[1..], targets, p, t);
      } else {
        SmallestPiece(pieces);
        var p', t' := Exchange(multiset(pieces), multiset(targets), p, t, pieces[0], targets[0]);
        GreedyOptimal(pieces[1..], targets[1..], p', t');
      }
    }
  }

  lemma {:induction false} SmallestPiece(s: seq<nat>)
    requires SortedBy(Le, s) && |s| > 0
    ensures forall x :: x in multiset(s) ==> s[0] <= x
  {
    forall x | x in multiset(s)
      ensures s[0] <= x
    {
      assert x in s;
      assert x == s[0] || (x in s[1..] && Le(s[0], x));
    }
  }

  /** A piece smaller than every target takes no part in a matching. */
  lemma {:induction false} TooSmall(pieces: seq<nat>, targets: seq<nat>, p: seq<nat>, t: seq<nat>)
    requires SortedBy(Le, pieces) && SortedBy(Le, targets) && |pieces| > 0 && |targets| > 0
    requires pieces[0] < targets[0] && Covers(multiset(pieces), multiset(targets), p, t)
    ensures Covers(multiset(pieces[1..]), multiset(targets), p, t)
  {
    SmallestPiece(targets);
    FirstApart(pieces);
    forall i | 0 <= i < |p|
      ensures p[i] != pieces[0]
    {
      assert t[i] in multiset(t);
    }
    assert multiset(p)[pieces[0]] == 0;
  }

  /** The targets left uncovered. */
  function Deficit(pieces: seq<nat>, targets: seq<nat>): seq<nat> {
    var t := Sort(Le, targets);
    t[Covered(Sort(Le, pieces), t)..]
  }

  /** The targets covered, the smallest ones. */
  function CoveredTargets(pieces: seq<nat>, targets: seq<nat>): seq<nat> {
    var t := Sort(Le, targets);
    t[..Covered(Sort(Le, pieces), t)]
  }

  lemma {:induction false} SortedPair(s: seq<nat>, i: nat, j: nat)
    requires SortedBy(Le, s) && i < j < |s|
    ensures s[i] <= s[j]
  {
    if i == 0 {
      assert s[j] in s[1..] && Le(s[0], s[j]);
    } else {
      SortedPair(s[1..], i - 1, j - 1);
    }
  }

  lemma {:induction false} SplitSorted(t: seq<nat>, n: nat)
    requires SortedBy(Le, t) && n <= |t|
    ensures multiset(t[n..]) + multiset(t[..n]) == multiset(t)
    ensures forall u, c :: u in t[n..] && c in t[..n] ==> c <= u
  {
    assert t == t[..n] + t[n..];
    forall u, c | u in t[n..] && c in t[..n]
      ensures c <= u
    {
      var i :| 0 <= i < n && t[i] == c;
      var j :| n <= j < |t| && t[j] == u;
      SortedPair(t, i, j);
    }
  }

  /** What the deficit means: with the covered targets it makes up all targets; the covered ones are covered
      by distinct pieces; no way of covering covers more; and nothing uncovered is smaller than anything
      covered. */
  lemma DeficitMeaning(pieces: seq<nat>, targets: seq<nat>, p': seq<nat>, t': seq<nat>) returns (p: seq<nat>)
    ensures multiset(Deficit(pieces, targets)) + multiset(CoveredTargets(pieces, targets)) == multiset(targets)
    ensures |CoveredTargets(pieces, targets)| + |Deficit(pieces, targets)| == |targets|
    ensures Covers(multiset(pieces), multiset(targets), p, CoveredTargets(pieces, targets))
    ensures Covers(multiset(pieces), multiset(targets), p', t') ==> |t'| <= |CoveredTargets(pieces, targets)|
    ensures forall u, c :: u in Deficit(pieces, targets) && c in CoveredTargets(pieces, targets) ==> c <= u
  {
    LeTotal();
    SortSorts(Le, pieces);
    SortSorts(Le, targets);
    var s, t := Sort(Le, pieces), Sort(Le, targets);
    p := GreedyCovers(s, t);
    if Covers(multiset(pieces), multiset(targets), p', t') {
      GreedyOptimal(s, t, p', t');
    }
    SplitSorted(t, Covered(s, t));
  }

  lemma DropPiece(pieces: multiset<nat>, targets: multiset<nat>, p: seq<nat>, t: seq<nat>, a: nat)
      returns (p': seq<nat>, t': seq<nat>)
    requires Covers(pieces, targets, p, t)
    ensures Covers(pieces - multiset{a}, targets, p', t') && |t'| + 1 >= |t|
  {
    if a in p {
      var j :| 0 <= j < |p| && p[j] == a;
      DropPair(pieces, targets, p, t, j);
      p', t' := Without(p, j), Without(t, j);
    } else {
      p', t' := p, t;
      Avoids(multiset(p), pieces, a);
    }
  }

  /** A piece and a target of its own size can be left out together at the cost of at most one pair. */
  lemma DropEqual(pieces: multiset<nat>, targets: multiset<nat>, p: seq<nat>, t: seq<nat>, r: nat)
      returns (p': seq<nat>, t': seq<nat>)
    requires Covers(pieces, targets, p, t)
    ensures Covers(pieces - multiset{r}, targets - multiset{r}, p', t') && |t'| + 1 >= |t|
  {
    if r in p {
      var i :| 0 <= i < |p| && p[i] == r;
      p', t' := Reassign(pieces, targets, p, t, i, r);
    } else {
      Avoids(multiset(p), pieces, r);
      p', t' := DropTarget(pieces - multiset{r}, targets, p, t, r);
    }
  }

  lemma {:induction false} DropEquals(pieces: multiset<nat>, targets: multiset<nat>, p: seq<nat>, t: seq<nat>, rs: seq<nat>)
      returns (p': seq<nat>, t': seq<nat>)
    requires Covers(pieces, targets, p, t)
    ensures Covers(pieces - multiset(rs), targets - multiset(rs), p', t') && |t'| + |rs| >= |t|
    decreases |rs|
  {
    if |rs| == 0 {
      p', t' := p, t;
    } else {
      var p1, t1 := DropEqual(pieces, targets, p, t, rs[0]);
      p', t' := DropEquals(pieces - multiset{rs[0]}, targets - multiset{rs[0]}, p1, t1, rs[1..]);
      FirstApart(rs);
    }
  }

  lemma JoinCovers(pieces: multiset<nat>, targets: multiset<nat>, p: seq<nat>, t: seq<nat>, rs: seq<nat>)
    requires Covers(pieces, targets, p, t)
    ensures Covers(pieces + multiset(rs), targets + multiset(rs), p + rs, t + rs)
  {
  }

  /** Cancellation: pieces that are targets pair off with themselves, and leave the rest as it was. */
  lemma EqualsCancel(pieces: seq<nat>, targets: seq<nat>, rs: seq<nat>, pieces': seq<nat>, targets': seq<nat>)
    requires multiset(pieces') == multiset(pieces) + multiset(rs)
    requires multiset(targets') == multiset(targets) + multiset(rs)
    ensures |Deficit(pieces', targets')| == |Deficit(pieces, targets)|
  {
    var p := DeficitMeaning(pieces, targets, [], []);
    var t := CoveredTargets(pieces, targets);
    JoinCovers(multiset(pieces), multiset(targets), p, t, rs);
    var q := DeficitMeaning(pieces', targets', p + rs, t + rs);
    var u := CoveredTargets(pieces', targets');
    var q', u' := DropEquals(multiset(pieces'), multiset(targets'), q, u, rs);
    assert multiset(pieces') - multiset(rs) == multiset(pieces);
    assert multiset(targets') - multiset(rs) == multiset(targets);
    p := DeficitMeaning(pieces, targets, q', u');
    assert |targets'| == |targets| + |rs| by {
      assert |multiset(targets')| == |multiset(targets)| + |multiset(rs)|;
    }
  }
}
