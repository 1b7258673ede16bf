/** The ordering `MatchingService.evaluate_candidates` puts its results in:
    `results.sort(key=lambda x: x.score, reverse=True)`. Python's sort is
    stable also when reversed, so results with equal scores keep the order
    the candidates were given in. The library sort is modelled by an
    insertion sort with the same output. */
module Ranking {
  import opened Schemas

  /** Scores never increase from one result to the next. */
  predicate SortedByScoreDesc(rs: seq<MatchingResult>) {
    forall i, j :: 0 <= i < j < |rs| ==> rs[i].score >= rs[j].score
  }

  /** The results scoring exactly `v`, in their order in `rs`. */
  function WithScore(rs: seq<MatchingResult>, v: real): seq<MatchingResult> {
    if rs == [] then []
    else (if rs[0].score == v then [rs[0]] else []) + WithScore(rs[1..], v)
  }

  /** Places `x` after every result scoring more than it and before the rest. */
  function Insert(x: MatchingResult, sorted: seq<MatchingResult>): seq<MatchingResult> {
    if sorted == [] || sorted[0].score <= x.score then [x] + sorted
    else [sorted[0]] + Insert(x, sorted[1..])
  }

  /** The list after `sort(key=score, reverse=True)`. */
  function SortByScoreDesc(rs: seq<MatchingResult>): seq<MatchingResult> {
    if rs == [] then [] else Insert(rs[0], SortByScoreDesc(rs[1..]))
  }

  lemma {:induction false} InsertPermutes(x: MatchingResult, sorted: seq<MatchingResult>)
    ensures multiset(Insert(x, sorted)) == multiset([x] + sorted)
  {
    if sorted != [] && sorted[0].score > x.score {
      InsertPermutes(x, sorted[1..]);
      assert sorted == [sorted[0]] + sorted[1..];
    }
  }

  lemma {:induction false} InsertKeepsSorted(x: MatchingResult, sorted: seq<MatchingResult>)
    requires SortedByScoreDesc(sorted)
    ensures SortedByScoreDesc(Insert(x, sorted))
  {
    if sorted != [] && sorted[0].score > x.score {
      InsertKeepsSorted(x, sorted[1..]);
      InsertPermutes(x, sorted[1..]);
      var rest := Insert(x, sorted[1..]);
      forall j | 0 <= j < |rest| ensures sorted[0].score >= rest[j].score {
        assert rest[j] in multiset([x] + sorted[1..]);
        assert rest[j] == x || rest[j] in sorted[1..];
      }
      assert Insert(x, sorted) == [sorted[0]] + rest;
    }
  }

  lemma WithScoreCons(y: MatchingResult, rest: seq<MatchingResult>, v: real)
    ensures WithScore([y] + rest, v) == (if y.score == v then [y] else []) + WithScore(rest, v)
  {
    assert ([y] + rest)[1..] == rest;
  }

  /** One step of `Insert` past a result `y` scoring more than `x`. */
  lemma InsertPassesWithScore(y: MatchingResult, x: MatchingResult, inserted: seq<MatchingResult>, rest: seq<MatchingResult>, v: real)
    requires y.score > x.score
    requires WithScore(inserted, v) == (if x.score == v then [x] else []) + WithScore(rest, v)
    ensures WithScore([y] + inserted, v) == (if x.score == v then [x] else []) + WithScore([y] + rest, v)
  {
    WithScoreCons(y, inserted, v);
    WithScoreCons(y, rest, v);
    if y.score == v {
      assert x.score != v;
    }
  }

  /** `x` enters the results of its own score in front of them: every result
      `Insert` passes scores more than `x`. */
  lemma {:induction false} InsertWithScore(x: MatchingResult, sorted: seq<MatchingResult>, v: real)
    ensures WithScore(Insert(x, sorted), v) == (if x.score == v then [x] else []) + WithScore(sorted, v)
  {
    if sorted != [] && sorted[0].score > x.score {
      InsertWithScore(x, sorted[1..], v);
      InsertPassesWithScore(sorted[0], x, Insert(x, sorted[1..]), sorted[1..], v);
      assert [sorted[0]] + sorted[1..] == sorted;
    } else {
      WithScoreCons(x, sorted, v);
    }
  }

  /** The sort neither adds nor drops a result. */
  lemma {:induction false} SortPermutes(rs: seq<MatchingResult>)
    ensures multiset(SortByScoreDesc(rs)) == multiset(rs)
    ensures |SortByScoreDesc(rs)| == |rs|
  {
    if rs != [] {
      SortPermutes(rs[1..]);
      InsertPermutes(rs[0], SortByScoreDesc(rs[1..]));
      assert rs == [rs[0]] + rs[1..];
    }
    assert |multiset(SortByScoreDesc(rs))| == |multiset(rs)|;
  }

  /** The highest score comes first. */
  lemma {:induction false} SortSorts(rs: seq<MatchingResult>)
    ensures SortedByScoreDesc(SortByScoreDesc(rs))
  {
    if rs != [] {
      SortSorts(rs[1..]);
      InsertKeepsSorted(rs[0], SortByScoreDesc(rs[1..]));
    }
  }

  /** Stability: for every score, the results with that score appear in the
      order they had before sorting. */
  lemma {:induction false} SortIsStable(rs: seq<MatchingResult>, v: real)
    ensures WithScore(SortByScoreDesc(rs), v) == WithScore(rs, v)
  {
    if rs != [] {
      SortIsStable(rs[1..], v);
      InsertWithScore(rs[0], SortByScoreDesc(rs[1..]), v);
    }
  }

  /** A list that is already in order is left as it is. */
  lemma {:induction false} SortOfSorted(rs: seq<MatchingResult>)
    requires SortedByScoreDesc(rs)
    ensures SortByScoreDesc(rs) == rs
  {
    if rs != [] {
      SortOfSorted(rs[1..]);
      assert SortByScoreDesc(rs[1..]) == rs[1..];
      if |rs| > 1 {
        assert rs[1].score <= rs[0].score;
      }
      assert [rs[0]] + rs[1..] == rs;
    }
  }
}
