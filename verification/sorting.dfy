/** Stable sorting by a comparator, as `slice::sort_by` does it (proved
    stable by `SortByStable`), and the lexicographic order `String::cmp`
    uses. */
module Sorting {
  import Seqs

  /** `le` is a total preorder: any two elements compare, and comparison
      chains. This is what `sort_by` asks of its comparator. */
  ghost predicate TotalPreorder<T(!new)>(le: (T, T) -> bool) {
    && (forall a, b :: le(a, b) || le(b, a))
    && (forall a, b, c :: le(a, b) && le(b, c) ==> le(a, c))
  }

  ghost predicate SortedBy<T>(s: seq<T>, le: (T, T) -> bool) {
    forall i, j :: 0 <= i < j < |s| ==> le(s[i], s[j])
  }

  /** Inserts `x` in front of the first element it is not after. */
  function InsertBy<T>(x: T, s: seq<T>, le: (T, T) -> bool): (r: seq<T>)
    ensures multiset(r) == multiset(s) + multiset{x}
    ensures |r| == |s| + 1
  {
    if |s| == 0 then [x]
    else if le(x, s[0]) then [x] + s
    else
      assert s == [s[0]] + s[1..];
      [s[0]] + InsertBy(x, s[1..], le)
  }

  lemma {:induction false} InsertBySorted<T(!new)>(x: T, s: seq<T>, le: (T, T) -> bool)
    requires TotalPreorder(le) && SortedBy(s, le)
    ensures SortedBy(InsertBy(x, s, le), le)
  {
    if |s| == 0 {
    } else if le(x, s[0]) {
      var r := [x] + s;
      forall i, j | 0 <= i < j < |r| ensures le(r[i], r[j]) {
        if i == 0 && j > 1 {
          assert le(s[0], s[j - 1]);
        }
      }
    } else {
      var tail := InsertBy(x, s[1..], le);
      InsertBySorted(x, s[1..], le);
      assert le(s[0], x);
      forall k | 0 <= k < |tail| ensures le(s[0], tail[k]) {
        assert tail[k] in multiset(tail);
        if tail[k] != x {
          assert tail[k] in multiset(s[1..]);
          var m :| 0 <= m < |s[1..]| && s[1..][m] == tail[k];
          assert le(s[0], s[m + 1]);
        }
      }
      var r := [s[0]] + tail;
      forall i, j | 0 <= i < j < |r| ensures le(r[i], r[j]) {
        if i > 0 {
          assert le(tail[i - 1], tail[j - 1]);
        } else {
          assert le(s[0], tail[j - 1]);
        }
      }
    }
  }

  /** `sort_by`: the elements of `s`, in `le` order. */
  function SortBy<T(!new)>(s: seq<T>, le: (T, T) -> bool): (r: seq<T>)
    requires TotalPreorder(le)
    ensures multiset(r) == multiset(s)
    ensures |r| == |s|
    ensures SortedBy(r, le)
  {
    if |s| == 0 then []
    else
      assert s == [s[0]] + s[1..];
      var rest := SortBy(s[1..], le);
      InsertBySorted(s[0], rest, le);
      InsertBy(s[0], rest, le)
  }

  /** Cutting a sorted sequence keeps elements no later than every element
      cut off. */
  lemma PrefixFirst<T>(sorted: seq<T>, k: nat, le: (T, T) -> bool)
    requires k <= |sorted| && SortedBy(sorted, le)
    ensures multiset(sorted[..k]) <= multiset(sorted)
    ensures forall x, y :: x in sorted[..k] && y in multiset(sorted) - multiset(sorted[..k]) ==> le(x, y)
  {
    var kept, rest := sorted[..k], sorted[k..];
    assert sorted == kept + rest;
    assert multiset(sorted) - multiset(kept) == multiset(rest);
    forall x, y | x in kept && y in multiset(sorted) - multiset(kept)
      ensures le(x, y)
    {
      var i :| 0 <= i < k && kept[i] == x;
      assert y in rest;
      var j :| 0 <= j < |rest| && rest[j] == y;
      assert sorted[i] == x && sorted[k + j] == y;
    }
  }

  /** The elements `le` cannot tell apart from `z`. */
  function TiedWith<T>(le: (T, T) -> bool, z: T): T -> bool {
    y => le(z, y) && le(y, z)
  }

  /** Inserting `x` puts it before every element tied with it, and does not
      move the tied elements among themselves. */
  lemma {:induction false} InsertByTies<T(!new)>(x: T, s: seq<T>, le: (T, T) -> bool, z: T)
    requires TotalPreorder(le)
    ensures Seqs.Filter(InsertBy(x, s, le), TiedWith(le, z))
         == (if TiedWith(le, z)(x) then [x] else []) + Seqs.Filter(s, TiedWith(le, z))
  {
    var tied := TiedWith(le, z);
    if |s| == 0 {
      Seqs.FilterCons([x], tied);
    } else if le(x, s[0]) {
      Seqs.FilterCons([x] + s, tied);
      assert ([x] + s)[1..] == s;
    } else {
      var r := InsertBy(x, s, le);
      assert r[0] == s[0] && r[1..] == InsertBy(x, s[1..], le);
      Seqs.FilterCons(r, tied);
      Seqs.FilterCons(s, tied);
      InsertByTies(x, s[1..], le, z);
      if tied(x) {
        assert !tied(s[0]);
      }
    }
  }

  /** `sort_by` is stable: the elements tied with any `z` come out in the
      order they went in. */
  lemma {:induction false} SortByStable<T(!new)>(s: seq<T>, le: (T, T) -> bool, z: T)
    requires TotalPreorder(le)
    ensures Seqs.Filter(SortBy(s, le), TiedWith(le, z)) == Seqs.Filter(s, TiedWith(le, z))
  {
    if |s| > 0 {
      SortByStable(s[1..], le, z);
      InsertByTies(s[0], SortBy(s[1..], le), le, z);
      Seqs.FilterCons(s, TiedWith(le, z));
    }
  }

  /** `Ord for str`: lexicographic by character. */
  predicate LexLe(a: string, b: string) {
    if |a| == 0 then true
    else if |b| == 0 then false
    else if a[0] != b[0] then a[0] < b[0]
    else LexLe(a[1..], b[1..])
  }

  lemma {:induction false} LexLeTotal(a: string, b: string)
    ensures LexLe(a, b) || LexLe(b, a)
  {
    if |a| > 0 && |b| > 0 && a[0] == b[0] {
      LexLeTotal(a[1..], b[1..]);
    }
  }

  lemma {:induction false} LexLeTransitive(a: string, b: string, c: string)
    requires LexLe(a, b) && LexLe(b, c)
    ensures LexLe(a, c)
  {
    if |a| > 0 && |b| > 0 && |c| > 0 && a[0] == b[0] && b[0] == c[0] {
      LexLeTransitive(a[1..], b[1..], c[1..]);
    }
  }

  /** Equal strings are exactly the ones ordered both ways. */
  lemma {:induction false} LexLeAntisymmetric(a: string, b: string)
    requires LexLe(a, b) && LexLe(b, a)
    ensures a == b
  {
    if |a| > 0 && |b| > 0 {
      LexLeAntisymmetric(a[1..], b[1..]);
      assert a == [a[0]] + a[1..] && b == [b[0]] + b[1..];
    }
  }
}
