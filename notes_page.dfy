/**
 * The page component's state: the four selected facets and the current
 * page, updated in place by the dropdown click handlers, mirrored into the
 * location query, and the in-place sort of the semester menu.
 */
module NotesPage {
  import opened Strings
  import opened Notes
  import opened NotesQuery

  /** Sorted ascending under the default string order. */
  predicate SortedLex(s: seq<string>) {
    forall i, j :: 0 <= i < j < |s| ==> LexLe(s[i], s[j])
  }

  /** The state of a selection sort after `i` rounds: `s[..i]` sorted and nowhere above `s[i..]`. */
  predicate SortedUpTo(s: seq<string>, i: nat) {
    i <= |s|
    && (forall x, y :: 0 <= x < y < i ==> LexLe(s[x], s[y]))
    && (forall x, y :: 0 <= x < i <= y < |s| ==> LexLe(s[x], s[y]))
  }

  /** The index of a least element of `a[from..]`. */
  method MinIndex(a: array<string>, from: nat) returns (m: nat)
    requires from < a.Length
    ensures from <= m < a.Length
    ensures forall k :: from <= k < a.Length ==> LexLe(a[m], a[k])
  {
    m := from;
    LexLeReflexive(a[from]);
    var j := from + 1;
    while j < a.Length
      invariant from <= m < a.Length && from + 1 <= j <= a.Length
      invariant forall k :: from <= k < j ==> LexLe(a[m], a[k])
    {
      if !LexLe(a[m], a[j]) {
        LexLeTotal(a[m], a[j]);
        forall k | from <= k < j ensures LexLe(a[j], a[k]) {
          LexLeTransitive(a[j], a[m], a[k]);
        }
        LexLeReflexive(a[j]);
        m := j;
      }
      j := j + 1;
    }
  }

  /** Swapping a least element of `s[i..]` into place `i` extends the sorted prefix by one. */
  lemma SwapExtendsSorted(s: seq<string>, i: nat, m: nat)
    requires SortedUpTo(s, i) && i <= m < |s|
    requires forall k :: i <= k < |s| ==> LexLe(s[m], s[k])
    ensures SortedUpTo(s[i := s[m]][m := s[i]], i + 1)
  {
    var t := s[i := s[m]][m := s[i]];
    assert forall y :: i < y < |s| ==> t[y] == s[y] || (y == m && t[y] == s[i]);
  }

  /** `semesters.sort()`: sorts the array in place (selection sort on the default string order). */
  method SortInPlace(a: array<string>)
    modifies a
    ensures SortedLex(a[..])
    ensures multiset(a[..]) == old(multiset(a[..]))
  {
    var i := 0;
    while i < a.Length
      invariant SortedUpTo(a[..], i)
      invariant multiset(a[..]) == old(multiset(a[..]))
    {
      var m := MinIndex(a, i);
      ghost var before := a[..];
      a[i], a[m] := a[m], a[i];
      assert a[..] == before[i := before[m]][m := before[i]];
      SwapPermutes(before, i, m);
      SwapExtendsSorted(before, i, m);
      i := i + 1;
    }
  }

  lemma SwapPermutes(s: seq<string>, i: nat, j: nat)
    requires i < |s| && j < |s|
    ensures multiset(s[i := s[j]][j := s[i]]) == multiset(s)
  {
    if i != j {
      var t := s[i := s[j]];
      assert multiset(t) == multiset(s) - multiset{s[i]} + multiset{s[j]};
      assert multiset(t[j := s[i]]) == multiset(t) - multiset{t[j]} + multiset{s[i]};
    }
  }

  lemma {:induction false} DistinctCount(s: seq<string>, x: string)
    requires NoDuplicates(s)
    ensures multiset(s)[x] <= 1
    decreases |s|
  {
    if s != [] {
      assert s == [s[0]] + s[1..];
      DistinctCount(s[1..], x);
      if s[0] == x {
        assert x !in s[1..];
      }
    }
  }

  /** A rearrangement of a list without duplicates has no duplicates either. */
  lemma DistinctPermutation(a: seq<string>, b: seq<string>)
    requires NoDuplicates(a) && multiset(a) == multiset(b)
    ensures NoDuplicates(b)
  {
    forall i, j | 0 <= i < j < |b| ensures b[i] != b[j] {
      if b[i] == b[j] {
        DistinctCount(a, b[i]);
        RepeatCount(b, i, j);
      }
    }
  }

  lemma RepeatCount(s: seq<string>, i: nat, j: nat)
    requires i < j < |s| && s[i] == s[j]
    ensures multiset(s)[s[i]] >= 2
  {
    assert s == s[..j] + s[j..];
    assert s[i] in s[..j];
    assert s[j..][0] == s[j];
    assert multiset(s)[s[i]] == multiset(s[..j])[s[i]] + multiset(s[j..])[s[i]];
  }

  class NotesView {
    var university: string
    var degree: string
    var semester: string
    var subject: string
    var currentPage: nat

    function Selection(): Facets
      reads this
    {
      Facets(university, degree, semester, subject)
    }

    function State(): ViewState
      reads this
    {
      ViewState(Selection(), currentPage)
    }

    /** The `useState` initialisers: each facet read from the query, or `""`; the page, or 1. */
    constructor (q: Query)
      ensures State() == FromQuery(q)
      ensures currentPage >= 1
    {
      university := Lookup(q, Key(University)).GetOr("");
      degree := Lookup(q, Key(Degree)).GetOr("");
      semester := Lookup(q, Key(Semester)).GetOr("");
      subject := Lookup(q, Key(Subject)).GetOr("");
      currentPage := ParsePage(Lookup(q, PageKey));
    }

    /** Clicking a university: degree, semester and subject are cleared; the page stays. */
    method SelectUniversity(u: string)
      modifies this
      ensures Selection() == Choose(old(Selection()), University, u)
      ensures currentPage == old(currentPage)
    {
      university := u;
      degree := "";
      semester := "";
      subject := "";
    }

    /** Clicking a degree: semester and subject are cleared; university and page stay. */
    method SelectDegree(d: string)
      modifies this
      ensures Selection() == Choose(old(Selection()), Degree, d)
      ensures currentPage == old(currentPage)
    {
      degree := d;
      semester := "";
      subject := "";
    }

    /** Clicking a semester: subject is cleared; everything else stays. */
    method SelectSemester(s: string)
      modifies this
      ensures Selection() == Choose(old(Selection()), Semester, s)
      ensures currentPage == old(currentPage)
    {
      semester := s;
      subject := "";
    }

    /** Clicking a subject changes the subject and nothing else. */
    method SelectSubject(s: string)
      modifies this
      ensures Selection() == Choose(old(Selection()), Subject, s)
      ensures currentPage == old(currentPage)
    {
      subject := s;
    }

    /** `onPageChange={setCurrentPage}`: the selection stays. */
    method ChangePage(p: nat)
      modifies this
      ensures Selection() == old(Selection()) && currentPage == p
    {
      currentPage := p;
    }

    /** The `useEffect` body: sets the non-empty facets one by one, then the page. */
    method SyncQuery() returns (q: Query)
      ensures q == ToQuery(State())
    {
      ghost var f := Selection();
      q := [];
      if university != "" { q := q + [(Key(University), university)]; }
      assert q == FacetParam(f, University);
      if degree != "" { q := q + [(Key(Degree), degree)]; }
      assert q == FacetParam(f, University) + FacetParam(f, Degree);
      if semester != "" { q := q + [(Key(Semester), semester)]; }
      assert q == FacetParam(f, University) + FacetParam(f, Degree) + FacetParam(f, Semester);
      if subject != "" { q := q + [(Key(Subject), subject)]; }
      assert q == FacetParam(f, University) + FacetParam(f, Degree) + FacetParam(f, Semester)
                  + FacetParam(f, Subject);
      q := q + [(PageKey, NatToString(currentPage))];
    }

    /** The semester menu: the semester options, sorted in place before display. */
    method SemesterMenu(posts: seq<Post>) returns (menu: seq<string>)
      ensures SortedLex(menu)
      ensures multiset(menu) == multiset(Options(posts, Selection(), Semester))
      ensures NoDuplicates(menu)
      ensures forall v :: v in menu <==> v in Options(posts, Selection(), Semester)
    {
      var semesters := Options(posts, Selection(), Semester);
      var a := new string[|semesters|](i requires 0 <= i < |semesters| => semesters[i]);
      assert a[..] == semesters;
      SortInPlace(a);
      menu := a[..];
      DistinctPermutation(semesters, menu);
      assert forall v :: v in menu <==> v in multiset(menu);
      assert forall v :: v in semesters <==> v in multiset(semesters);
    }
  }
}
