/**
 * The page's shareable state: the four facets and the current page are
 * mirrored into the location query, and the initial state is read back from
 * it. A query is modelled as its list of key/value pairs, before
 * percent-encoding.
 */
module NotesQuery {
  import opened Wrappers
  import opened Strings
  import opened Notes

  type Query = seq<(string, string)>

  /** What the page keeps in state: the selection and `currentPage`. */
  datatype ViewState = ViewState(facets: Facets, page: nat)

  const PageKey: string := "page"

  function Key(level: Level): string {
    match level
    case University => "university"
    case Degree => "degree"
    case Semester => "semester"
    case Subject => "subject"
  }

  /** Position of a key in the emitted query: the facets top to bottom, then the page. */
  function KeyRank(k: string): nat {
    if k == "university" then 0
    else if k == "degree" then 1
    else if k == "semester" then 2
    else if k == "subject" then 3
    else if k == PageKey then 4
    else 5
  }

  /** `searchParams.get(key)`: the value of the first pair with that key. */
  function Lookup(q: Query, key: string): (r: Option<string>)
    ensures r.Some? <==> exists i :: 0 <= i < |q| && q[i].0 == key
    ensures r.Some? ==> exists i :: 0 <= i < |q| && q[i] == (key, r.value)
    decreases |q|
  {
    if q == [] then None
    else if q[0].0 == key then Some(q[0].1)
    else
      var r := Lookup(q[1..], key);
      assert forall i :: 0 < i < |q| ==> q[i] == q[1..][i - 1];
      assert forall i :: 0 <= i < |q| - 1 ==> q[1..][i] == q[i + 1];
      r
  }

  lemma {:induction false} LookupAppend(a: Query, b: Query, key: string)
    ensures Lookup(a + b, key) == if Lookup(a, key).Some? then Lookup(a, key) else Lookup(b, key)
    decreases |a|
  {
    if a != [] {
      assert (a + b)[1..] == a[1..] + b;
      LookupAppend(a[1..], b, key);
    } else {
      assert a + b == b;
    }
  }

  lemma KeyRanks()
    ensures forall level: Level :: KeyRank(Key(level)) == Rank(level)
    ensures KeyRank(PageKey) == 4
  {
  }

  /** The pair for one facet: present only when something is selected there. */
  function FacetParam(s: Facets, level: Level): Query {
    if Selected(s, level) != "" then [(Key(level), Selected(s, level))] else []
  }

  /**
   * The query the `useEffect` writes: the non-empty facets in the order
   * university, degree, semester, subject, then `page`, which is always there.
   */
  function ToQuery(v: ViewState): (q: Query)
    ensures |q| >= 1 && q[|q| - 1] == (PageKey, NatToString(v.page))
  {
    FacetParam(v.facets, University) + FacetParam(v.facets, Degree)
    + FacetParam(v.facets, Semester) + FacetParam(v.facets, Subject)
    + [(PageKey, NatToString(v.page))]
  }

  /** Keys strictly increase in rank. */
  predicate KeysIncreasing(q: Query) {
    forall i, j :: 0 <= i < j < |q| ==> KeyRank(q[i].0) < KeyRank(q[j].0)
  }

  /** Every pair is a facet pair of rank below `r` with a non-empty value. */
  predicate FacetPairsBelow(q: Query, r: nat) {
    forall i :: 0 <= i < |q| ==> KeyRank(q[i].0) < r && q[i].1 != ""
  }

  lemma ExtendByFacet(q: Query, f: Facets, level: Level)
    requires KeysIncreasing(q) && FacetPairsBelow(q, Rank(level))
    ensures KeysIncreasing(q + FacetParam(f, level))
    ensures FacetPairsBelow(q + FacetParam(f, level), Rank(level) + 1)
  {
    KeyRanks();
  }

  lemma ExtendByPage(q: Query, page: string)
    requires KeysIncreasing(q) && FacetPairsBelow(q, 4)
    ensures KeysIncreasing(q + [(PageKey, page)])
  {
    KeyRanks();
  }

  /** Keys appear at most once, in the order university, degree, semester, subject, page; no facet value is empty. */
  lemma ToQueryOrdered(v: ViewState)
    ensures forall i, j :: 0 <= i < j < |ToQuery(v)| ==> KeyRank(ToQuery(v)[i].0) < KeyRank(ToQuery(v)[j].0)
    ensures forall i :: 0 <= i < |ToQuery(v)| - 1 ==> KeyRank(ToQuery(v)[i].0) < 4 && ToQuery(v)[i].1 != ""
  {
    var f := v.facets;
    assert [] + FacetParam(f, University) == FacetParam(f, University);
    ExtendByFacet([], f, University);
    var q := FacetParam(f, University);
    ExtendByFacet(q, f, Degree);
    q := q + FacetParam(f, Degree);
    ExtendByFacet(q, f, Semester);
    q := q + FacetParam(f, Semester);
    ExtendByFacet(q, f, Subject);
    q := q + FacetParam(f, Subject);
    ExtendByPage(q, NatToString(v.page));
    assert ToQuery(v) == q + [(PageKey, NatToString(v.page))];
  }

  lemma LookupFacetParam(s: Facets, here: Level, key: string)
    ensures Lookup(FacetParam(s, here), key) ==
              if key == Key(here) && Selected(s, here) != "" then Some(Selected(s, here)) else None
  {
  }

  /** A lookup through the four facet pairs and then the rest. */
  lemma LookupFacets(f: Facets, tail: Query, key: string)
    ensures var q := FacetParam(f, University) + FacetParam(f, Degree)
                     + FacetParam(f, Semester) + FacetParam(f, Subject) + tail;
            Lookup(q, key) ==
              if key == Key(University) && f.university != "" then Some(f.university)
              else if key == Key(Degree) && f.degree != "" then Some(f.degree)
              else if key == Key(Semester) && f.semester != "" then Some(f.semester)
              else if key == Key(Subject) && f.subject != "" then Some(f.subject)
              else Lookup(tail, key)
  {
    var u, d, m, b := FacetParam(f, University), FacetParam(f, Degree), FacetParam(f, Semester), FacetParam(f, Subject);
    LookupAppend(u, d, key);
    LookupAppend(u + d, m, key);
    LookupAppend(u + d + m, b, key);
    LookupAppend(u + d + m + b, tail, key);
    LookupFacetParam(f, University, key);
    LookupFacetParam(f, Degree, key);
    LookupFacetParam(f, Semester, key);
    LookupFacetParam(f, Subject, key);
  }

  /** In the projected query, each facet key is present exactly when that facet is selected, with its value. */
  lemma ToQueryLookup(v: ViewState, level: Level)
    ensures Lookup(ToQuery(v), PageKey) == Some(NatToString(v.page))
    ensures Lookup(ToQuery(v), Key(level)) ==
              if Selected(v.facets, level) == "" then None else Some(Selected(v.facets, level))
  {
    var tail := [(PageKey, NatToString(v.page))];
    LookupFacets(v.facets, tail, PageKey);
    LookupFacets(v.facets, tail, Key(level));
    KeyRanks();
  }

  /**
   * `Number(raw) || 1` for the page parameter: a positive decimal number is
   * taken as it is; a missing, empty, zero or non-numeric value gives 1.
   */
  function ParsePage(raw: Option<string>): (p: nat)
    ensures p >= 1
    ensures raw.None? ==> p == 1
    ensures raw.Some? && !(AllDigits(raw.value) && DecimalValue(raw.value) > 0) ==> p == 1
    ensures raw.Some? && AllDigits(raw.value) && DecimalValue(raw.value) > 0 ==> p == DecimalValue(raw.value)
  {
    match raw
    case None => 1
    case Some(s) => if AllDigits(s) && DecimalValue(s) > 0 then DecimalValue(s) else 1
  }

  /** The initial state: `searchParams.get(key) || ""` for each facet, `ParsePage` for the page. */
  function FromQuery(q: Query): (v: ViewState)
    ensures v.page >= 1
    ensures forall level: Level :: Lookup(q, Key(level)).None? ==> Selected(v.facets, level) == ""
    ensures forall level: Level :: Lookup(q, Key(level)).Some? ==> Selected(v.facets, level) == Lookup(q, Key(level)).value
    ensures v.page == ParsePage(Lookup(q, PageKey))
  {
    ViewState(
      Facets(Lookup(q, Key(University)).GetOr(""), Lookup(q, Key(Degree)).GetOr(""),
             Lookup(q, Key(Semester)).GetOr(""), Lookup(q, Key(Subject)).GetOr("")),
      ParsePage(Lookup(q, PageKey)))
  }

  /** A page number written into the query is read back unchanged. */
  lemma PageRoundTrip(n: nat)
    requires n >= 1
    ensures ParsePage(Some(NatToString(n))) == n
  {
    DecimalRoundTrip(n);
  }

  /** Projecting a state into the query and reading it back restores it, for any page from 1 on. */
  lemma QueryRoundTrip(v: ViewState)
    requires v.page >= 1
    ensures FromQuery(ToQuery(v)) == v
  {
    var q := ToQuery(v);
    PageRoundTrip(v.page);
    ToQueryLookup(v, University);
    ToQueryLookup(v, Degree);
    ToQueryLookup(v, Semester);
    ToQueryLookup(v, Subject);
    assert Lookup(q, Key(University)).GetOr("") == v.facets.university;
    assert Lookup(q, Key(Degree)).GetOr("") == v.facets.degree;
    assert Lookup(q, Key(Semester)).GetOr("") == v.facets.semester;
    assert Lookup(q, Key(Subject)).GetOr("") == v.facets.subject;
  }

  /** A state loaded from any query is reproduced exactly by the query it projects to. */
  lemma LoadedStateIsStable(q: Query)
    ensures FromQuery(ToQuery(FromQuery(q))) == FromQuery(q)
  {
    QueryRoundTrip(FromQuery(q));
  }
}
