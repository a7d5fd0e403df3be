/**
 * The Notes directory page: the cascading facet dropdowns
 * (university, degree, semester, subject), the list of posts they select
 * and its pagination. Everything here is a pure function of the immutable
 * list of posts and the current selection.
 */
module Notes {
  import opened Wrappers

  /** `POSTS_PER_PAGE`. */
  const PostsPerPage: nat := 6

  /** A post's optional metadata; a post without a metadata object has every field `None`. */
  datatype Metadata = Metadata(
    university: Option<string>,
    degree: Option<string>,
    semester: Option<string>,
    subject: Option<string>)

  datatype Post = Post(
    slug: string,
    title: string,
    description: string,
    tags: seq<string>,
    published: bool,
    excludeFromMain: bool,
    metadata: Metadata)

  /** The four facets, top to bottom. */
  datatype Level = University | Degree | Semester | Subject

  /** The four selected facet values; `""` means "nothing selected". */
  datatype Facets = Facets(university: string, degree: string, semester: string, subject: string)

  function Rank(level: Level): nat {
    match level
    case University => 0
    case Degree => 1
    case Semester => 2
    case Subject => 3
  }

  function Field(m: Metadata, level: Level): Option<string> {
    match level
    case University => m.university
    case Degree => m.degree
    case Semester => m.semester
    case Subject => m.subject
  }

  function Selected(s: Facets, level: Level): string {
    match level
    case University => s.university
    case Degree => s.degree
    case Semester => s.semester
    case Subject => s.subject
  }

  // ---------------------------------------------------------------------
  // Dropdown options
  // ---------------------------------------------------------------------

  /**
   * The condition posts must meet to contribute to the dropdown at `level`:
   * strict equality with the selection on every level above it. There is
   * no emptiness guard, so a post lacking a field never matches, even when
   * nothing is selected there.
   */
  predicate MatchesAbove(m: Metadata, s: Facets, level: Level) {
    forall above: Level :: Rank(above) < Rank(level) ==> Field(m, above) == Some(Selected(s, above))
  }

  /** Post `p` contributes value `v` to the dropdown at `level` (`v` survives `filter(Boolean)`). */
  predicate Offers(p: Post, s: Facets, level: Level, v: string) {
    MatchesAbove(p.metadata, s, level) && Field(p.metadata, level) == Some(v) && v != ""
  }

  /** The `filter(...).map(...).filter(Boolean)` chain, before duplicates are removed. */
  function Candidates(posts: seq<Post>, s: Facets, level: Level): (r: seq<string>)
    ensures |r| <= |posts|
    ensures forall i :: 0 <= i < |r| ==> r[i] != ""
    decreases |posts|
  {
    if posts == [] then []
    else
      var m := posts[0].metadata;
      var here := if MatchesAbove(m, s, level) && Field(m, level).Some? && Field(m, level).value != ""
                  then [Field(m, level).value] else [];
      here + Candidates(posts[1..], s, level)
  }

  lemma {:induction false} CandidatesMembers(posts: seq<Post>, s: Facets, level: Level)
    ensures forall v :: v in Candidates(posts, s, level) <==>
                          exists i :: 0 <= i < |posts| && Offers(posts[i], s, level, v)
    decreases |posts|
  {
    if posts != [] {
      CandidatesMembers(posts[1..], s, level);
      forall v | v in Candidates(posts, s, level)
        ensures exists i :: 0 <= i < |posts| && Offers(posts[i], s, level, v)
      {
        if !Offers(posts[0], s, level, v) {
          assert v in Candidates(posts[1..], s, level);
          var j :| 0 <= j < |posts[1..]| && Offers(posts[1..][j], s, level, v);
          assert Offers(posts[j + 1], s, level, v);
        }
      }
      forall v | exists i :: 0 <= i < |posts| && Offers(posts[i], s, level, v)
        ensures v in Candidates(posts, s, level)
      {
        var i :| 0 <= i < |posts| && Offers(posts[i], s, level, v);
        if i > 0 {
          assert Offers(posts[1..][i - 1], s, level, v);
        }
      }
    }
  }

  predicate NoDuplicates<T(==)>(s: seq<T>) {
    forall i, j :: 0 <= i < j < |s| ==> s[i] != s[j]
  }

  /** `Array.from(new Set(s))`: the distinct elements of `s`, each at its first occurrence. */
  function Dedup(s: seq<string>): (r: seq<string>)
    ensures forall x :: x in r <==> x in s
    ensures NoDuplicates(r)
    ensures |r| <= |s|
    decreases |s|
  {
    if s == [] then []
    else
      var init := s[..|s| - 1];
      var r := Dedup(init);
      assert s == init + [s[|s| - 1]];
      if s[|s| - 1] in r then r else r + [s[|s| - 1]]
  }

  /** The index of the first occurrence of `x` in `s`. */
  function FirstIndex<T(==)>(s: seq<T>, x: T): (i: nat)
    requires x in s
    ensures i < |s| && s[i] == x && x !in s[..i]
    decreases |s|
  {
    if s[0] == x then 0 else 1 + FirstIndex(s[1..], x)
  }

  lemma {:induction false} FirstIndexPrefix<T>(s: seq<T>, n: nat, x: T)
    requires n <= |s| && x in s[..n]
    ensures FirstIndex(s, x) == FirstIndex(s[..n], x)
    decreases |s|
  {
    if s[0] != x {
      assert s[1..][..n - 1] == s[..n][1..];
      FirstIndexPrefix(s[1..], n - 1, x);
    }
  }

  /** `Dedup` keeps first-occurrence order: earlier options first appeared earlier. */
  lemma {:induction false} DedupKeepsFirstOccurrenceOrder(s: seq<string>)
    ensures forall i, j :: 0 <= i < j < |Dedup(s)| ==>
              FirstIndex(s, Dedup(s)[i]) < FirstIndex(s, Dedup(s)[j])
    decreases |s|
  {
    if s != [] {
      var n := |s| - 1;
      var init := s[..n];
      var prev := Dedup(init);
      DedupKeepsFirstOccurrenceOrder(init);
      var r := Dedup(s);
      assert r[..|prev|] == prev;
      forall k | 0 <= k < |prev| ensures FirstIndex(s, prev[k]) == FirstIndex(init, prev[k]) {
        FirstIndexPrefix(s, n, prev[k]);
      }
      if s[n] !in prev {
        assert s[n] !in init;
        assert FirstIndex(s, s[n]) == n;
      }
    }
  }

  /**
   * The options of the dropdown at `level` (`universities`, `degrees`,
   * `semesters`, `subjects`), in first-occurrence order. They are drawn from
   * all posts, whatever their `published` and `excludeFromMain` flags.
   */
  function Options(posts: seq<Post>, s: Facets, level: Level): (r: seq<string>)
    ensures NoDuplicates(r)
    ensures forall v :: v in r ==> v != ""
    ensures forall v :: v in r <==> exists i :: 0 <= i < |posts| && Offers(posts[i], s, level, v)
  {
    CandidatesMembers(posts, s, level);
    Dedup(Candidates(posts, s, level))
  }

  /** The candidates of a concatenation are those of each part, one after the other. */
  lemma {:induction false} CandidatesAppend(a: seq<Post>, b: seq<Post>, s: Facets, level: Level)
    ensures Candidates(a + b, s, level) == Candidates(a, s, level) + Candidates(b, s, level)
    decreases |a|
  {
    if a != [] {
      assert (a + b)[1..] == a[1..] + b;
      CandidatesAppend(a[1..], b, s, level);
    } else {
      assert a + b == b;
    }
  }

  /** A single post contributes its value at `level` exactly when it offers one. */
  lemma CandidatesOfOne(p: Post, s: Facets, level: Level)
    ensures forall v :: Candidates([p], s, level) == [v] <==> Offers(p, s, level, v)
    ensures Candidates([p], s, level) == [] <==> forall v :: !Offers(p, s, level, v)
  {
    assert [p][1..] == [];
    assert Candidates([p][1..], s, level) == [];
    var c := Candidates([p], s, level);
    if c == [] {
      forall v ensures !Offers(p, s, level, v) { }
    } else {
      assert Offers(p, s, level, c[0]);
    }
  }

  /** The index of the first post that offers `v` at `level`. */
  function FirstOffer(posts: seq<Post>, s: Facets, level: Level, v: string): (i: nat)
    requires v in Candidates(posts, s, level)
    ensures i < |posts| && Offers(posts[i], s, level, v)
    ensures forall k :: 0 <= k < i ==> !Offers(posts[k], s, level, v)
    decreases |posts|
  {
    if Offers(posts[0], s, level, v) then 0
    else
      var i := 1 + FirstOffer(posts[1..], s, level, v);
      assert forall k :: 0 < k < |posts| ==> posts[k] == posts[1..][k - 1];
      i
  }

  /** A value first offered no later than another comes no later among the candidates. */
  lemma {:induction false} FirstOfferOrder(posts: seq<Post>, s: Facets, level: Level, v: string, w: string)
    requires v in Candidates(posts, s, level) && w in Candidates(posts, s, level)
    ensures FirstOffer(posts, s, level, v) <= FirstOffer(posts, s, level, w) ==>
              FirstIndex(Candidates(posts, s, level), v) <= FirstIndex(Candidates(posts, s, level), w)
    decreases |posts|
  {
    var c := Candidates(posts, s, level);
    var rest := Candidates(posts[1..], s, level);
    if !Offers(posts[0], s, level, v) && !Offers(posts[0], s, level, w) {
      var here := c[..|c| - |rest|];
      assert c == here + rest;
      assert v !in here && w !in here;
      FirstOfferOrder(posts[1..], s, level, v, w);
      if here != [] {
        assert c[1..] == rest;
      }
    }
  }

  /** The options keep the order in which posts first offer them. */
  lemma OptionsInFirstOccurrenceOrder(posts: seq<Post>, s: Facets, level: Level)
    ensures forall i, j :: 0 <= i < j < |Options(posts, s, level)| ==>
              FirstIndex(Candidates(posts, s, level), Options(posts, s, level)[i])
              < FirstIndex(Candidates(posts, s, level), Options(posts, s, level)[j])
    ensures forall i, j :: 0 <= i < j < |Options(posts, s, level)| ==>
              FirstOffer(posts, s, level, Options(posts, s, level)[i])
              < FirstOffer(posts, s, level, Options(posts, s, level)[j])
  {
    var c := Candidates(posts, s, level);
    var o := Options(posts, s, level);
    DedupKeepsFirstOccurrenceOrder(c);
    forall i, j | 0 <= i < j < |o|
      ensures FirstOffer(posts, s, level, o[i]) < FirstOffer(posts, s, level, o[j])
    {
      FirstOfferOrder(posts, s, level, o[j], o[i]);
    }
  }

  /** The university dropdown ignores the selection altogether. */
  lemma UniversityOptionsIgnoreSelection(posts: seq<Post>, s: Facets, t: Facets)
    ensures Options(posts, s, University) == Options(posts, t, University)
  {
    assert forall m: Metadata :: MatchesAbove(m, s, University) && MatchesAbove(m, t, University);
    CandidatesAgree(posts, posts, s, t, University);
  }

  /** Two lists of posts that agree on every post's metadata, position by position. */
  predicate SameMetadata(ps: seq<Post>, qs: seq<Post>) {
    |ps| == |qs| && forall i :: 0 <= i < |ps| ==> ps[i].metadata == qs[i].metadata
  }

  lemma {:induction false} CandidatesAgree(ps: seq<Post>, qs: seq<Post>, s: Facets, t: Facets, level: Level)
    requires SameMetadata(ps, qs)
    requires forall m: Metadata :: MatchesAbove(m, s, level) == MatchesAbove(m, t, level)
    ensures Candidates(ps, s, level) == Candidates(qs, t, level)
    decreases |ps|
  {
    if ps != [] {
      CandidatesAgree(ps[1..], qs[1..], s, t, level);
    }
  }

  /** The options depend only on metadata: `published` and `excludeFromMain` play no part. */
  lemma OptionsIgnoreFlags(ps: seq<Post>, qs: seq<Post>, s: Facets, level: Level)
    requires SameMetadata(ps, qs)
    ensures Options(ps, s, level) == Options(qs, s, level)
  {
    CandidatesAgree(ps, qs, s, s, level);
  }

  // ---------------------------------------------------------------------
  // The listed posts
  // ---------------------------------------------------------------------

  /** An empty selection imposes nothing; a non-empty one demands an equal field. */
  predicate FacetAdmits(field: Option<string>, selected: string) {
    selected == "" || field == Some(selected)
  }

  /** The predicate of `filteredPosts`. */
  predicate Listed(p: Post, s: Facets)
    ensures Listed(p, s) ==> p.published && !p.excludeFromMain
    ensures Listed(p, s) ==>
              forall level: Level :: Selected(s, level) != "" ==> Field(p.metadata, level) == Some(Selected(s, level))
  {
    p.published && !p.excludeFromMain
    && forall level: Level :: FacetAdmits(Field(p.metadata, level), Selected(s, level))
  }

  /** With nothing selected every published post outside the excluded ones is listed; selecting more lists no more. */
  lemma EmptySelectionListsPublished(p: Post, s: Facets)
    ensures Listed(p, Facets("", "", "", "")) <==> p.published && !p.excludeFromMain
    ensures Listed(p, s) ==> Listed(p, Facets("", "", "", ""))
  {
  }

  /** `filteredPosts`: the listed posts, in input order. */
  function FilterPosts(posts: seq<Post>, s: Facets): (r: seq<Post>)
    ensures |r| <= |posts|
    ensures multiset(r) <= multiset(posts)
    ensures forall p :: p in r <==> p in posts && Listed(p, s)
    decreases |posts|
  {
    if posts == [] then []
    else
      assert posts == [posts[0]] + posts[1..];
      (if Listed(posts[0], s) then [posts[0]] else []) + FilterPosts(posts[1..], s)
  }

  /** Filtering distributes over concatenation, which is what keeping input order means. */
  lemma {:induction false} FilterPostsAppend(a: seq<Post>, b: seq<Post>, s: Facets)
    ensures FilterPosts(a + b, s) == FilterPosts(a, s) + FilterPosts(b, s)
    decreases |a|
  {
    if a != [] {
      assert (a + b)[1..] == a[1..] + b;
      FilterPostsAppend(a[1..], b, s);
    } else {
      assert a + b == b;
    }
  }

  /** Every facet above `level` has a value selected. */
  predicate SelectedAbove(s: Facets, level: Level) {
    forall above: Level :: Rank(above) < Rank(level) ==> Selected(s, above) != ""
  }

  /**
   * When every facet above `level` is selected (so its dropdown is enabled),
   * each listed post's own value at `level` appears among that dropdown's options.
   */
  lemma ListedPostsAreOffered(posts: seq<Post>, s: Facets, level: Level, p: Post)
    requires SelectedAbove(s, level)
    requires p in FilterPosts(posts, s)
    requires Field(p.metadata, level).Some? && Field(p.metadata, level).value != ""
    ensures Field(p.metadata, level).value in Options(posts, s, level)
  {
    var i :| 0 <= i < |posts| && posts[i] == p;
    assert Offers(posts[i], s, level, Field(p.metadata, level).value);
  }

  // ---------------------------------------------------------------------
  // Pagination
  // ---------------------------------------------------------------------

  function Min(a: int, b: int): int {
    if a <= b then a else b
  }

  /** `Math.ceil(n / POSTS_PER_PAGE)`: the fewest pages that hold `n` posts. */
  function TotalPages(n: nat): (t: nat)
    ensures t * PostsPerPage >= n
    ensures t > 0 ==> (t - 1) * PostsPerPage < n
    ensures (t == 0) == (n == 0)
  {
    (n + PostsPerPage - 1) / PostsPerPage
  }

  /**
   * `displayPosts`: `items.slice(6 * (page - 1), 6 * page)`. A page past the
   * end is empty, not an error; page 0 slices `(-6, 0)`, which is empty too.
   */
  function PageSlice<T>(items: seq<T>, page: nat): (r: seq<T>)
    ensures |r| <= PostsPerPage
    ensures page == 0 || page > TotalPages(|items|) ==> r == []
    ensures 1 <= page <= TotalPages(|items|) ==>
              |r| == Min(PostsPerPage, |items| - PostsPerPage * (page - 1)) > 0
    ensures page >= 1 ==>
              forall i :: 0 <= i < |r| ==> r[i] == items[PostsPerPage * (page - 1) + i]
  {
    if page == 0 then []
    else
      var lo := Min(PostsPerPage * (page - 1), |items|);
      var hi := Min(PostsPerPage * page, |items|);
      items[lo..hi]
  }

  /** Pages 1 to `k`, one after the other. */
  function PagesUpTo<T>(items: seq<T>, k: nat): seq<T>
    decreases k
  {
    if k == 0 then [] else PagesUpTo(items, k - 1) + PageSlice(items, k)
  }

  /** The sum of the lengths of pages 1 to `k`. */
  function PageLengthsUpTo<T>(items: seq<T>, k: nat): nat
    decreases k
  {
    if k == 0 then 0 else PageLengthsUpTo(items, k - 1) + |PageSlice(items, k)|
  }

  lemma {:induction false} PagesUpToIsPrefix<T>(items: seq<T>, k: nat)
    ensures PagesUpTo(items, k) == items[..Min(PostsPerPage * k, |items|)]
    ensures PageLengthsUpTo(items, k) == Min(PostsPerPage * k, |items|)
    decreases k
  {
    if k > 0 {
      PagesUpToIsPrefix(items, k - 1);
      var lo := Min(PostsPerPage * (k - 1), |items|);
      var hi := Min(PostsPerPage * k, |items|);
      assert PageSlice(items, k) == items[lo..hi];
      assert items[..lo] + items[lo..hi] == items[..hi];
    }
  }

  /** Pages 1 to `TotalPages` put back together are the whole list, and their lengths add up to it. */
  lemma PagesReassemble<T>(items: seq<T>)
    ensures PagesUpTo(items, TotalPages(|items|)) == items
    ensures PageLengthsUpTo(items, TotalPages(|items|)) == |items|
  {
    PagesUpToIsPrefix(items, TotalPages(|items|));
    assert items[..|items|] == items;
  }

  // ---------------------------------------------------------------------
  // Choosing a value in a dropdown
  // ---------------------------------------------------------------------

  /** No facet is selected below an unselected one. */
  predicate Hierarchical(s: Facets) {
    forall a: Level, b: Level :: Rank(a) < Rank(b) && Selected(s, b) != "" ==> Selected(s, a) != ""
  }

  /** The dropdown at `level` is enabled: the button is disabled while the facet above is empty. */
  predicate Enabled(s: Facets, level: Level)
    ensures Enabled(s, level) <==>
              forall above: Level :: Rank(above) + 1 == Rank(level) ==> Selected(s, above) != ""
    ensures Hierarchical(s) && Enabled(s, level) ==> SelectedAbove(s, level)
  {
    match level
    case University => true
    case Degree => assert Selected(s, University) == s.university; s.university != ""
    case Semester => assert Selected(s, Degree) == s.degree; s.degree != ""
    case Subject => assert Selected(s, Semester) == s.semester; s.semester != ""
  }

  /**
   * The effect of picking `v` in the dropdown at `level`: that facet becomes
   * `v`, the ones above stay, the ones below are cleared.
   */
  function Choose(s: Facets, level: Level, v: string): (r: Facets)
    ensures Selected(r, level) == v
    ensures forall l: Level :: Rank(l) < Rank(level) ==> Selected(r, l) == Selected(s, l)
    ensures forall l: Level :: Rank(l) > Rank(level) ==> Selected(r, l) == ""
    ensures Hierarchical(s) && Enabled(s, level) && v != "" ==> Hierarchical(r)
  {
    match level
    case University => Facets(v, "", "", "")
    case Degree => Facets(s.university, v, "", "")
    case Semester => Facets(s.university, s.degree, v, "")
    case Subject => s.(subject := v)
  }

  /** After a choice, the facets below it no longer restrict the listed posts. */
  lemma ChooseClearsLowerFilters(s: Facets, level: Level, v: string, p: Post)
    ensures Listed(p, Choose(s, level, v)) <==>
              p.published && !p.excludeFromMain
              && forall l: Level :: Rank(l) <= Rank(level) ==>
                   FacetAdmits(Field(p.metadata, l), Selected(Choose(s, level, v), l))
  {
  }
}
