/** Sorting by a total order: the one sorted arrangement of a multiset. */
module Ordering {
  type Order<!T> = (T, T) -> bool

  ghost predicate IsTotal<T(!new)>(le: Order<T>) {
    && (forall a, b :: le(a, b) || le(b, a))
    && (forall a, b :: le(a, b) && le(b, a) ==> a == b)
    && (forall a, b, c :: le(a, b) && le(b, c) ==> le(a, c))
  }

  /** `x` comes before everything in `s`. */
  ghost predicate First<T(!new)>(le: Order<T>, x: T, s: seq<T>) {
    forall y :: y in s ==> le(x, y)
  }

  ghost predicate SortedBy<T(!new)>(le: Order<T>, s: seq<T>) {
    |s| != 0 ==> First(le, s[0], s[1..]) && SortedBy(le, s[1..])
  }

  function Insert<T>(le: Order<T>, x: T, s: seq<T>): seq<T> {
    if |s| == 0 then [x] else if le(x, s[0]) then [x] + s else [s[0]] + Insert(le, x, s[1..])
  }

  function Sort<T>(le: Order<T>, s: seq<T>): seq<T> {
    if |s| == 0 then [] else Insert(le, s[0], Sort(le, s[1..]))
  }

  lemma {:induction false} FirstOfAll<T(!new)>(le: Order<T>, x: T, s: seq<T>)
    requires IsTotal(le) && SortedBy(le, s) && |s| > 0 && le(x, s[0])
    ensures First(le, x, s)
  {
    forall y | y in s
      ensures le(x, y)
    {
      assert y == s[0] || y in s[1..];
    }
  }

  lemma {:induction false} InsertContents<T>(le: Order<T>, x: T, s: seq<T>)
    ensures multiset(Insert(le, x, s)) == multiset(s) + multiset{x}
  {
    if |s| > 0 {
      assert s == [s[0]] + s[1..];
      InsertContents(le, x, s[1..]);
    }
  }

  lemma {:induction false} InsertSorts<T(!new)>(le: Order<T>, x: T, s: seq<T>)
    requires IsTotal(le) && SortedBy(le, s)
    ensures SortedBy(le, Insert(le, x, s))
  {
    if |s| > 0 {
      if le(x, s[0]) {
        FirstOfAll(le, x, s);
      } else {
        var rest := Insert(le, x, s[1..]);
        InsertSorts(le, x, s[1..]);
        InsertContents(le, x, s[1..]);
        forall y | y in rest
          ensures le(s[0], y)
        {
          assert y in multiset(rest);
          assert y == x || y in s[1..];
        }
      }
    }
  }

  /** Sorting arranges the same elements in order. */
  lemma {:induction false} SortSorts<T(!new)>(le: Order<T>, s: seq<T>)
    requires IsTotal(le)
    ensures SortedBy(le, Sort(le, s)) && multiset(Sort(le, s)) == multiset(s)
    ensures |Sort(le, s)| == |s|
  {
    if |s| > 0 {
      SortSorts(le, s[1..]);
      InsertSorts(le, s[0], Sort(le, s[1..]));
      InsertContents(le, s[0], Sort(le, s[1..]));
      assert s == [s[0]] + s[1..];
    }
    assert |multiset(Sort(le, s))| == |multiset(s)|;
  }

  lemma {:induction false} FirstUnique<T(!new)>(le: Order<T>, s: seq<T>, t: seq<T>)
    requires IsTotal(le) && SortedBy(le, s) && SortedBy(le, t) && multiset(s) == multiset(t)
    requires |s| > 0 && |t| > 0
    ensures s[0] == t[0]
  {
    assert s[0] in multiset(t) && t[0] in multiset(s);
    assert le(s[0], s[0]) && le(t[0], t[0]);
    FirstOfAll(le, s[0], s);
    FirstOfAll(le, t[0], t);
    assert s[0] in t && t[0] in s;
    assert le(s[0], t[0]) && le(t[0], s[0]);
  }

  /** Two sorted arrangements of one multiset are the same sequence. */
  lemma {:induction false} SortedUnique<T(!new)>(le: Order<T>, s: seq<T>, t: seq<T>)
    requires IsTotal(le) && SortedBy(le, s) && SortedBy(le, t) && multiset(s) == multiset(t)
    ensures s == t
  {
    assert |multiset(s)| == |multiset(t)|;
    if |s| > 0 {
      FirstUnique(le, s, t);
      assert s == [s[0]] + s[1..] && t == [t[0]] + t[1..];
      assert multiset(s[1..]) == multiset(s) - multiset{s[0]};
      assert multiset(t[1..]) == multiset(t) - multiset{t[0]};
      SortedUnique(le, s[1..], t[1..]);
    }
  }

  /** Sorting does not depend on the order of its input. */
  lemma {:induction false} SortPermutes<T(!new)>(le: Order<T>, s: seq<T>, t: seq<T>)
    requires IsTotal(le) && multiset(s) == multiset(t)
    ensures Sort(le, s) == Sort(le, t)
  {
    SortSorts(le, s);
    SortSorts(le, t);
    SortedUnique(le, Sort(le, s), Sort(le, t));
  }

  /** Texts in dictionary order of their characters. */
  predicate TextLe(a: string, b: string) {
    |a| == 0 || (|b| != 0 && (a[0] < b[0] || (a[0] == b[0] && TextLe(a[1..], b[1..]))))
  }

  lemma {:induction false} TextLeTotal(a: string, b: string)
    ensures TextLe(a, b) || TextLe(b, a)
    ensures TextLe(a, b) && TextLe(b, a) ==> a == b
  {
    if |a| != 0 && |b| != 0 && a[0] == b[0] {
      TextLeTotal(a[1..], b[1..]);
      assert a == [a[0]] + a[1..] && b == [b[0]] + b[1..];
    }
  }

  lemma {:induction false} TextLeTransitive(a: string, b: string, c: string)
    requires TextLe(a, b) && TextLe(b, c)
    ensures TextLe(a, c)
  {
    if |a| != 0 && a[0] == b[0] == c[0] {
      TextLeTransitive(a[1..], b[1..], c[1..]);
    }
  }

  // Taking elements out of a sequence.

  function Without<T>(s: seq<T>, i: nat): seq<T>
    requires i < |s|
  {
    s[..i] + s[i + 1..]
  }

  lemma WithoutContents<T>(s: seq<T>, i: nat)
    requires i < |s|
    ensures multiset(Without(s, i)) == multiset(s) - multiset{s[i]}
  {
    assert s == s[..i] + [s[i]] + s[i + 1..];
  }

  /** Where the first element of a choice lies in what it is chosen from; the others are chosen from the rest. */
  lemma Locate<T>(chosen: seq<T>, pool: seq<T>) returns (i: nat)
    requires multiset(chosen) <= multiset(pool) && |chosen| > 0
    ensures i < |pool| && pool[i] == chosen[0]
    ensures multiset(chosen[1..]) <= multiset(Without(pool, i))
  {
    assert chosen[0] in multiset(chosen) && chosen[0] in multiset(pool);
    i :| 0 <= i < |pool| && pool[i] == chosen[0];
    WithoutContents(pool, i);
    WithoutContents(chosen, 0);
    assert Without(chosen, 0) == chosen[1..];
  }
}
