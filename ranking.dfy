/** Fuzzy ranking of table rows: every row paired with a match score, then
    Python's `sorted(result, key=score, reverse=True)`, which orders by
    non-increasing score and keeps rows of equal score in their original
    order. The scorer (`textual.fuzzy.Matcher`) is foreign: it is a
    parameter `Matcher`, of which only `> 0` and the order of scores matter. */
module Ranking {

  /** `Matcher(query).match(text)` */
  type Matcher = (string, string) -> real

  /** A row paired with its score: the tuple `(row, score)` of the source. */
  datatype Scored<T> = Scored(item: T, score: real)

  predicate NonIncreasing<T>(s: seq<Scored<T>>) {
    forall i, j | 0 <= i < j < |s| :: s[i].score >= s[j].score
  }

  /** The elements scoring exactly `v`, in order. */
  function WithScore<T>(s: seq<Scored<T>>, v: real): seq<Scored<T>> {
    if s == [] then [] else (if s[0].score == v then [s[0]] else []) + WithScore(s[1..], v)
  }

  /** The elements scoring more than 0, in order: `if score > 0`. */
  function Positive<T>(s: seq<Scored<T>>): (r: seq<Scored<T>>)
    ensures |r| <= |s|
    ensures forall i | 0 <= i < |r| :: r[i].score > 0.0
  {
    if s == [] then [] else (if s[0].score > 0.0 then [s[0]] else []) + Positive(s[1..])
  }

  function Items<T>(s: seq<Scored<T>>): (r: seq<T>)
    ensures |r| == |s|
    ensures forall i | 0 <= i < |s| :: r[i] == s[i].item
  {
    seq(|s|, i requires 0 <= i < |s| => s[i].item)
  }

  /** Place `x` before the first element that scores no more than it. */
  function Insert<T>(x: Scored<T>, s: seq<Scored<T>>): (r: seq<Scored<T>>)
    ensures |r| == |s| + 1
    ensures forall y | y in r :: y == x || y in s
    ensures NonIncreasing(s) ==> NonIncreasing(r)
  {
    if s == [] || s[0].score <= x.score then [x] + s
    else
      var rest := Insert(x, s[1..]);
      assert NonIncreasing(s) ==> forall y | y in rest :: y.score <= s[0].score by {
        if NonIncreasing(s) {
          forall y | y in rest ensures y.score <= s[0].score {
            if y != x {
              var j :| 0 <= j < |s[1..]| && s[1..][j] == y;
              assert s[j + 1] == y;
            }
          }
        }
      }
      [s[0]] + rest
  }

  /** Stable sort by non-increasing score (insertion sort). */
  function SortDesc<T>(s: seq<Scored<T>>): (r: seq<Scored<T>>)
    ensures |r| == |s|
    ensures NonIncreasing(r)
  {
    if s == [] then [] else Insert(s[0], SortDesc(s[1..]))
  }

  lemma {:induction false} InsertPermutes<T>(x: Scored<T>, s: seq<Scored<T>>)
    ensures multiset(Insert(x, s)) == multiset(s) + multiset{x}
  {
    if s == [] || s[0].score <= x.score {
    } else {
      InsertPermutes(x, s[1..]);
      assert s == [s[0]] + s[1..];
    }
  }

  /** The sort returns a permutation of its input. */
  lemma {:induction false} SortDescPermutes<T>(s: seq<Scored<T>>)
    ensures multiset(SortDesc(s)) == multiset(s)
  {
    if s != [] {
      SortDescPermutes(s[1..]);
      InsertPermutes(s[0], SortDesc(s[1..]));
      assert s == [s[0]] + s[1..];
    }
  }

  lemma {:induction false} WithScoreInsert<T>(x: Scored<T>, s: seq<Scored<T>>, v: real)
    ensures WithScore(Insert(x, s), v) == (if x.score == v then [x] else []) + WithScore(s, v)
  {
    if s == [] || s[0].score <= x.score {
    } else {
      WithScoreInsert(x, s[1..], v);
      assert s[0].score != v || x.score != v;
    }
  }

  /** Stability: for every score, the elements with that score appear in
      the output in the same order as in the input. */
  lemma {:induction false} SortDescStable<T>(s: seq<Scored<T>>, v: real)
    ensures WithScore(SortDesc(s), v) == WithScore(s, v)
  {
    if s != [] {
      SortDescStable(s[1..], v);
      WithScoreInsert(s[0], SortDesc(s[1..]), v);
    }
  }

  lemma {:induction false} PositiveHeadBound<T>(s: seq<Scored<T>>)
    requires NonIncreasing(s) && s != [] && Positive(s) != []
    ensures Positive(s)[0].score <= s[0].score
  {
    if s[0].score <= 0.0 {
      PositiveHeadBound(s[1..]);
    }
  }

  lemma {:induction false} PositiveInsert<T>(x: Scored<T>, s: seq<Scored<T>>)
    requires NonIncreasing(s)
    ensures Positive(Insert(x, s)) == if x.score > 0.0 then Insert(x, Positive(s)) else Positive(s)
  {
    if s == [] || s[0].score <= x.score {
      if x.score > 0.0 && s != [] && Positive(s) != [] {
        PositiveHeadBound(s);
      }
    } else {
      PositiveInsert(x, s[1..]);
    }
  }

  /** Filtering positive scores commutes with the stable sort: dropping
      non-positive rows after sorting (the search screen) gives the same
      sequence as dropping them before (the table model). */
  lemma {:induction false} PositiveOfSortDesc<T>(s: seq<Scored<T>>)
    ensures Positive(SortDesc(s)) == SortDesc(Positive(s))
  {
    if s != [] {
      PositiveOfSortDesc(s[1..]);
      PositiveInsert(s[0], SortDesc(s[1..]));
      if s[0].score > 0.0 {
        var p := Positive(s);
        assert p == [s[0]] + Positive(s[1..]);
        assert p[0] == s[0] && p[1..] == Positive(s[1..]);
        assert SortDesc(p) == Insert(s[0], SortDesc(Positive(s[1..])));
      } else {
        assert Positive(s) == Positive(s[1..]);
      }
    }
  }

  lemma {:induction false} PositivePreservesWithScore<T>(s: seq<Scored<T>>, v: real)
    requires v > 0.0
    ensures WithScore(Positive(s), v) == WithScore(s, v)
  {
    if s != [] {
      PositivePreservesWithScore(s[1..], v);
      if s[0].score > 0.0 {
        var p := Positive(s);
        assert p == [s[0]] + Positive(s[1..]);
        assert p[0] == s[0] && p[1..] == Positive(s[1..]);
        assert WithScore(p, v) == (if s[0].score == v then [s[0]] else []) + WithScore(Positive(s[1..]), v);
      } else {
        assert Positive(s) == Positive(s[1..]);
        assert WithScore(s, v) == WithScore(s[1..], v);
      }
    }
  }

  lemma {:induction false} PositiveMembers<T>(s: seq<Scored<T>>)
    ensures forall y | y in Positive(s) :: y in s && y.score > 0.0
  {
    if s != [] {
      PositiveMembers(s[1..]);
    }
  }

  lemma SortDescMembers<T>(s: seq<Scored<T>>)
    ensures forall y | y in SortDesc(s) :: y in s
  {
    SortDescPermutes(s);
    forall y | y in SortDesc(s) ensures y in s {
      assert y in multiset(SortDesc(s));
    }
  }

  lemma {:induction false} PositiveAppend<T>(s: seq<Scored<T>>, x: Scored<T>)
    ensures Positive(s + [x]) == Positive(s) + (if x.score > 0.0 then [x] else [])
  {
    var tail := if x.score > 0.0 then [x] else [];
    if s == [] {
      assert s + [x] == [x] && [x][1..] == [];
      assert Positive([x]) == tail + Positive([x][1..]);
    } else {
      var t := s + [x];
      assert t[0] == s[0] && t[1..] == s[1..] + [x];
      PositiveAppend(s[1..], x);
      var head := if s[0].score > 0.0 then [s[0]] else [];
      calc {
        Positive(t);
        head + Positive(s[1..] + [x]);
        head + (Positive(s[1..]) + tail);
        (head + Positive(s[1..])) + tail;
        Positive(s) + tail;
      }
    }
  }

  lemma ItemsAppend<T>(s: seq<Scored<T>>, x: Scored<T>)
    ensures Items(s + [x]) == Items(s) + [x.item]
  {
  }

  lemma {:induction false} InsertItems<T>(x: Scored<T>, s: seq<Scored<T>>)
    ensures multiset(Items(Insert(x, s))) == multiset(Items(s)) + multiset{x.item}
  {
    if s == [] || s[0].score <= x.score {
      assert Items([x] + s) == [x.item] + Items(s);
    } else {
      InsertItems(x, s[1..]);
      assert Items(Insert(x, s)) == [s[0].item] + Items(Insert(x, s[1..]));
      assert Items(s) == [s[0].item] + Items(s[1..]);
    }
  }

  /** Sorting reorders the items and neither drops nor duplicates any. */
  lemma {:induction false} SortDescItems<T>(s: seq<Scored<T>>)
    ensures multiset(Items(SortDesc(s))) == multiset(Items(s))
  {
    if s != [] {
      SortDescItems(s[1..]);
      InsertItems(s[0], SortDesc(s[1..]));
      assert Items(s) == [s[0].item] + Items(s[1..]);
    }
  }
}
