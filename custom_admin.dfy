/**
 * The dashboard of the custom admin site (evaluations/custom_admin.py): the top rated
 * professors among the first five professors in default order.
 */
module CustomAdmin {
  import opened Models
  import opened Aggregation
  import opened AdminViews

  /** The first five professors in `full_name` order (`Professor.objects.all()[:5]`). */
  function Candidates(st: Store): (ps: seq<Professor>)
    ensures |ps| <= 5 && |ps| <= |st.professors| && ps == st.professors[..|ps|]
    ensures |st.professors| >= 5 ==> |ps| == 5
    ensures |st.professors| < 5 ==> ps == st.professors
  {
    Take(st.professors, 5)
  }

  /** `CustomAdminSite.index`'s loop, sort and `[:5]`, over the five candidates. */
  method IndexTopProfessors(st: Store) returns (top: seq<RatedProfessor>)
    ensures top == Take(SortBy(RatedRows(st, Candidates(st)), RatingKey), 5)
  {
    top := TopProfessors(st, Candidates(st));
  }

  lemma {:induction false} RatedRowsLength(st: Store, ps: seq<Professor>)
    ensures |RatedRows(st, ps)| <= |ps|
  {
    if ps != [] {
      RatedRowsLength(st, ps[..|ps| - 1]);
    }
  }

  /**
   * The index lists, sorted ascending by rating, exactly those of the first five professors
   * that have a positive survey average, each with their rating in [1, 5]: with at most five
   * candidates the final cut to five drops no one, and no later professor can appear.
   */
  lemma IndexTopProfessorsListed(st: Store)
    requires Valid(st)
    ensures var top := Take(SortBy(RatedRows(st, Candidates(st)), RatingKey), 5);
            && |top| <= 5
            && SortedBy(top, RatingKey)
            && (forall r :: r in top <==> exists p :: p in Candidates(st) && RatedAs(st, p, r))
            && (forall r :: r in top ==> 1.0 <= r.rating <= 5.0)
  {
    var rows := RatedRows(st, Candidates(st));
    var sorted := SortBy(rows, RatingKey);
    RatedRowsLength(st, Candidates(st));
    RatedRowsMembers(st, Candidates(st));
    SortBySorted(rows, RatingKey);
    assert Take(sorted, 5) == sorted;
    TopProfessorsRanked(st, Candidates(st));
    forall r | r in sorted
      ensures r in rows
    {
      assert r in multiset(sorted);
    }
    forall r | r in rows
      ensures r in sorted
    {
      assert r in multiset(rows);
    }
  }
}
