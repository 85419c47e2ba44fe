/**
 * The rating aggregations shared by the dashboards and the admin list pages: a professor's
 * rating is the mean of their survey averages that are above 0 (a survey whose answers
 * are all Not Applicable has average 0 and is left out), and rankings sort ascending
 * ("lower is better", 1 = Strongly Agree) and keep the first few rows.
 */
module Aggregation {
  import opened Wrappers
  import opened Models

  // ---------------------------------------------------------------------------
  // Means over reals
  // ---------------------------------------------------------------------------

  function SumReal(xs: seq<real>): real
  {
    if xs == [] then 0.0 else SumReal(xs[..|xs| - 1]) + xs[|xs| - 1]
  }

  /** The exact mean, 0 for an empty sequence. */
  function MeanReal(xs: seq<real>): (m: real)
    ensures |xs| == 0 ==> m == 0.0
    ensures |xs| > 0 ==> m * (|xs| as real) == SumReal(xs)
  {
    if |xs| == 0 then 0.0 else SumReal(xs) / |xs| as real
  }

  /** The values above 0, in order (`if avg > 0`). */
  function Positives(xs: seq<real>): (ps: seq<real>)
    ensures |ps| <= |xs|
  {
    if xs == [] then []
    else Positives(xs[..|xs| - 1]) + (if xs[|xs| - 1] > 0.0 then [xs[|xs| - 1]] else [])
  }

  /** The mean of the values above 0, or None when there is none (`if count > 0`). */
  function PositiveMean(xs: seq<real>): (m: Option<real>)
    ensures m.None? <==> Positives(xs) == []
    ensures m.Some? ==> m.value * (|Positives(xs)| as real) == SumReal(Positives(xs))
  {
    var ps := Positives(xs);
    if ps == [] then None else Some(MeanReal(ps))
  }

  lemma {:induction false} PositivesMembers(xs: seq<real>)
    ensures forall x :: x in Positives(xs) <==> x in xs && x > 0.0
  {
    if xs != [] {
      PositivesMembers(xs[..|xs| - 1]);
      assert xs == xs[..|xs| - 1] + [xs[|xs| - 1]];
    }
  }

  lemma {:induction false} SumRealBounds(xs: seq<real>, lo: real, hi: real)
    requires forall x :: x in xs ==> lo <= x <= hi
    ensures (|xs| as real) * lo <= SumReal(xs) <= (|xs| as real) * hi
  {
    if xs != [] {
      var init := xs[..|xs| - 1];
      forall x | x in init
        ensures lo <= x <= hi
      {
        assert x in xs;
      }
      SumRealBounds(init, lo, hi);
      assert xs[|xs| - 1] in xs;
    }
  }

  lemma MeanRealBounds(xs: seq<real>, lo: real, hi: real)
    requires |xs| > 0
    requires forall x :: x in xs ==> lo <= x <= hi
    ensures lo <= MeanReal(xs) <= hi
  {
    SumRealBounds(xs, lo, hi);
    var n := |xs| as real;
    var m := MeanReal(xs);
    assert m * n == SumReal(xs);
    assert lo * n <= m * n <= hi * n;
  }

  /**
   * When every value is 0 or lies in [lo, hi] with lo > 0, the positive mean exists exactly
   * when some value is positive, and then lies in [lo, hi].
   */
  lemma PositiveMeanRange(xs: seq<real>, lo: real, hi: real)
    requires 0.0 < lo
    requires forall x :: x in xs ==> x == 0.0 || lo <= x <= hi
    ensures PositiveMean(xs).None? <==> forall x :: x in xs ==> x == 0.0
    ensures PositiveMean(xs).Some? ==> lo <= PositiveMean(xs).value <= hi
  {
    var ps := Positives(xs);
    PositivesMembers(xs);
    if ps != [] {
      assert ps[0] in ps;
      MeanRealBounds(ps, lo, hi);
    } else {
      forall x | x in xs
        ensures x == 0.0
      {
        assert x !in ps;
      }
    }
  }

  /** A survey average of 0 appended to the list leaves the positive mean unchanged. */
  lemma PositiveMeanIgnoresZero(xs: seq<real>, z: real)
    requires z <= 0.0
    ensures PositiveMean(xs + [z]) == PositiveMean(xs)
  {
    assert (xs + [z])[..|xs + [z]| - 1] == xs;
    assert Positives(xs + [z]) == Positives(xs);
  }

  // ---------------------------------------------------------------------------
  // A professor's rating
  // ---------------------------------------------------------------------------

  /** `professor.surveys.all()`: the surveys of one professor, in table order. */
  function SurveysOf(surveys: seq<Survey>, professor: nat): (r: seq<Survey>)
    ensures forall s :: s in r ==> s in surveys && s.professor == professor
    ensures forall s :: s in surveys && s.professor == professor ==> s in r
  {
    if surveys == [] then []
    else SurveysOf(surveys[..|surveys| - 1], professor)
         + (if surveys[|surveys| - 1].professor == professor then [surveys[|surveys| - 1]] else [])
  }

  /** The surveys keep table order: filtering two tables one after the other concatenates. */
  lemma {:induction false} SurveysOfAppend(a: seq<Survey>, b: seq<Survey>, professor: nat)
    ensures SurveysOf(a + b, professor) == SurveysOf(a, professor) + SurveysOf(b, professor)
  {
    if b == [] {
      assert a + b == a;
    } else {
      assert (a + b)[|a + b| - 1] == b[|b| - 1] && (a + b)[..|a + b| - 1] == a + b[..|b| - 1];
      SurveysOfAppend(a, b[..|b| - 1], professor);
    }
  }

  /** `survey.get_average_rating()` of every survey in `ss`. */
  function SurveyAverages(st: Store, ss: seq<Survey>): (avgs: seq<real>)
    ensures |avgs| == |ss|
  {
    if ss == [] then [] else SurveyAverages(st, ss[..|ss| - 1]) + [SurveyAverage(st, ss[|ss| - 1].id)]
  }

  /** A professor's rating: the mean of their positive survey averages, if any. */
  function ProfessorRating(st: Store, professor: nat): Option<real>
  {
    PositiveMean(SurveyAverages(st, SurveysOf(st.surveys, professor)))
  }

  /**
   * The loop of the dashboards and of ProfessorAdmin.average_rating over a professor's
   * surveys, adding up the averages that are above 0 and counting them.
   */
  method AccumulatePositive(st: Store, surveys: seq<Survey>) returns (total: real, count: nat)
    ensures count == |Positives(SurveyAverages(st, surveys))|
    ensures total == SumReal(Positives(SurveyAverages(st, surveys)))
  {
    total, count := 0.0, 0;
    for i := 0 to |surveys|
      invariant count == |Positives(SurveyAverages(st, surveys[..i]))|
      invariant total == SumReal(Positives(SurveyAverages(st, surveys[..i])))
    {
      var avg := SurveyAverage(st, surveys[i].id);
      AveragesStep(st, surveys, i);
      PositivesStep(SurveyAverages(st, surveys[..i]), avg);
      if avg > 0.0 {
        total := total + avg;
        count := count + 1;
      }
    }
    assert surveys[..|surveys|] == surveys;
  }

  lemma AveragesStep(st: Store, surveys: seq<Survey>, i: nat)
    requires i < |surveys|
    ensures SurveyAverages(st, surveys[..i + 1]) == SurveyAverages(st, surveys[..i]) + [SurveyAverage(st, surveys[i].id)]
  {
    assert surveys[..i + 1][..i] == surveys[..i];
  }

  lemma PositivesStep(xs: seq<real>, x: real)
    ensures Positives(xs + [x]) == Positives(xs) + (if x > 0.0 then [x] else [])
    ensures SumReal(Positives(xs + [x])) == SumReal(Positives(xs)) + (if x > 0.0 then x else 0.0)
  {
    assert (xs + [x])[..|xs + [x]| - 1] == xs;
    if x > 0.0 {
      var ps := Positives(xs) + [x];
      assert Positives(xs + [x]) == ps;
      assert ps[..|ps| - 1] == Positives(xs);
      assert SumReal(ps) == SumReal(Positives(xs)) + x;
    } else {
      assert Positives(xs + [x]) == Positives(xs);
    }
  }

  lemma {:induction false} SurveyAveragesRange(st: Store, ss: seq<Survey>)
    requires Valid(st)
    ensures forall x :: x in SurveyAverages(st, ss) ==> x == 0.0 || 1.0 <= x <= 5.0
  {
    if ss != [] {
      SurveyAveragesRange(st, ss[..|ss| - 1]);
      SurveyAverageRange(st, ss[|ss| - 1].id);
    }
  }

  lemma {:induction false} SurveyAveragesMembers(st: Store, ss: seq<Survey>)
    ensures forall s :: s in ss ==> SurveyAverage(st, s.id) in SurveyAverages(st, ss)
    ensures forall x :: x in SurveyAverages(st, ss) ==> exists s :: s in ss && SurveyAverage(st, s.id) == x
  {
    if ss != [] {
      var init := ss[..|ss| - 1];
      SurveyAveragesMembers(st, init);
      assert ss == init + [ss[|ss| - 1]];
      forall x | x in SurveyAverages(st, ss)
        ensures exists s :: s in ss && SurveyAverage(st, s.id) == x
      {
        if x in SurveyAverages(st, init) {
          var s :| s in init && SurveyAverage(st, s.id) == x;
          assert s in ss;
        } else {
          assert ss[|ss| - 1] in ss;
        }
      }
    }
  }

  /**
   * With valid answers a professor's rating, when there is one, lies in [1, 5]; there is
   * none exactly when every one of their surveys has average 0 (or they have no survey).
   */
  lemma ProfessorRatingRange(st: Store, professor: nat)
    requires Valid(st)
    ensures ProfessorRating(st, professor).None?
            <==> forall s :: s in SurveysOf(st.surveys, professor) ==> SurveyAverage(st, s.id) == 0.0
    ensures ProfessorRating(st, professor).Some? ==> 1.0 <= ProfessorRating(st, professor).value <= 5.0
  {
    var ss := SurveysOf(st.surveys, professor);
    var xs := SurveyAverages(st, ss);
    SurveyAveragesRange(st, ss);
    SurveyAveragesMembers(st, ss);
    PositiveMeanRange(xs, 1.0, 5.0);
  }

  // ---------------------------------------------------------------------------
  // Ascending ranking
  // ---------------------------------------------------------------------------

  /** Inserts `x` after every element whose key is not greater, so equal keys keep their order. */
  function InsertBy<T>(x: T, s: seq<T>, key: T -> real): (r: seq<T>)
    ensures |r| == |s| + 1
    ensures multiset(r) == multiset(s) + multiset{x}
  {
    if s == [] then [x]
    else if key(x) < key(s[0]) then [x] + s
    else
      assert s == [s[0]] + s[1..];
      [s[0]] + InsertBy(x, s[1..], key)
  }

  /** `list.sort(key=...)`: Python's stable ascending sort. */
  function SortBy<T>(s: seq<T>, key: T -> real): (r: seq<T>)
    ensures |r| == |s|
    ensures multiset(r) == multiset(s)
  {
    if s == [] then []
    else
      assert s == s[..|s| - 1] + [s[|s| - 1]];
      InsertBy(s[|s| - 1], SortBy(s[..|s| - 1], key), key)
  }

  predicate SortedBy<T>(s: seq<T>, key: T -> real)
  {
    forall i, j :: 0 <= i < j < |s| ==> key(s[i]) <= key(s[j])
  }

  /** `rows[:n]`. */
  function Take<T>(s: seq<T>, n: nat): (r: seq<T>)
    ensures |r| == if |s| <= n then |s| else n
    ensures r == s[..|r|]
  {
    if |s| <= n then s else s[..n]
  }

  lemma {:induction false} InsertBySorted<T>(x: T, s: seq<T>, key: T -> real)
    requires SortedBy(s, key)
    ensures SortedBy(InsertBy(x, s, key), key)
  {
    if s != [] && key(x) >= key(s[0]) {
      var rest := InsertBy(x, s[1..], key);
      InsertBySorted(x, s[1..], key);
      var r := [s[0]] + rest;
      assert InsertBy(x, s, key) == r;
      forall j | 0 <= j < |rest|
        ensures key(s[0]) <= key(rest[j])
      {
        InsertByFrom(x, s[1..], key, j);
        if rest[j] != x {
          var k :| 0 <= k < |s| - 1 && s[1..][k] == rest[j];
          assert s[k + 1] == rest[j];
        }
      }
      forall i, j | 0 <= i < j < |r|
        ensures key(r[i]) <= key(r[j])
      {
        assert r[j] == rest[j - 1];
        if i > 0 {
          assert r[i] == rest[i - 1];
        }
      }
    }
  }

  /** Every element of an insertion is the inserted one or one of the list. */
  lemma {:induction false} InsertByFrom<T>(x: T, s: seq<T>, key: T -> real, j: nat)
    requires j < |InsertBy(x, s, key)|
    ensures InsertBy(x, s, key)[j] == x || exists k :: 0 <= k < |s| && s[k] == InsertBy(x, s, key)[j]
  {
    if s != [] && key(x) >= key(s[0]) && j > 0 {
      InsertByFrom(x, s[1..], key, j - 1);
      var y := InsertBy(x, s, key)[j];
      assert y == InsertBy(x, s[1..], key)[j - 1];
      if y != x {
        var k :| 0 <= k < |s| - 1 && s[1..][k] == y;
        assert s[k + 1] == y;
      }
    } else if s != [] && key(x) < key(s[0]) && j > 0 {
      assert InsertBy(x, s, key)[j] == s[j - 1];
    }
  }

  lemma {:induction false} SortBySorted<T>(s: seq<T>, key: T -> real)
    ensures SortedBy(SortBy(s, key), key)
  {
    if s != [] {
      SortBySorted(s[..|s| - 1], key);
      InsertBySorted(s[|s| - 1], SortBy(s[..|s| - 1], key), key);
    }
  }

  /**
   * The first n rows after sorting are n of the input rows with the lowest keys: every
   * input row left out has a key at least as large as every row kept.
   */
  lemma TakeSortedIsLowest<T>(s: seq<T>, key: T -> real, n: nat)
    ensures var top := Take(SortBy(s, key), n);
            && SortedBy(top, key)
            && multiset(top) <= multiset(s)
            && (forall x :: x in top ==> x in s)
            && (forall x, y :: x in top && y in s && y !in top ==> key(x) <= key(y))
  {
    var sorted := SortBy(s, key);
    var top := Take(sorted, n);
    SortBySorted(s, key);
    SortedPrefixIsLowest(sorted, key, |top|);
    assert sorted == top + sorted[|top|..];
    assert multiset(sorted) == multiset(top) + multiset(sorted[|top|..]);
    forall x | x in top
      ensures x in s
    {
      assert x in multiset(top);
      assert x in multiset(s);
    }
    forall y | y in s
      ensures y in sorted
    {
      assert y in multiset(sorted);
    }
  }

  /** A prefix of a sorted list is sorted, and no element after it has a lower key. */
  lemma SortedPrefixIsLowest<T>(sorted: seq<T>, key: T -> real, m: nat)
    requires SortedBy(sorted, key) && m <= |sorted|
    ensures SortedBy(sorted[..m], key)
    ensures forall x, y :: x in sorted[..m] && y in sorted && y !in sorted[..m] ==> key(x) <= key(y)
  {
    var top := sorted[..m];
    forall i, j | 0 <= i < j < |top|
      ensures key(top[i]) <= key(top[j])
    {
      assert top[i] == sorted[i] && top[j] == sorted[j];
    }
    forall x, y | x in top && y in sorted && y !in top
      ensures key(x) <= key(y)
    {
      var j :| 0 <= j < |sorted| && sorted[j] == y;
      var i :| 0 <= i < m && top[i] == x;
      assert sorted[i] == x;
    }
  }
}
