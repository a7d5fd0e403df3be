# Notes Buddy: facet filter and sign-in callbacks in Dafny

This project models two parts of the Notes Buddy site.

- **The Notes directory page** (`app/notes/page.tsx`). Four cascading dropdowns pick a
  university, then a degree, a semester and a subject. Each dropdown's options come from
  the posts that match the facets above it. Below the dropdowns is the list of published
  posts that match the selection, shown six to a page. The selection and the page are
  mirrored into the location query, and the page reads them back when it loads.
- **The sign-in callbacks** (`lib/auth.ts`). On a sign-in the `jwt` callback finds the
  user in the `users` collection. It creates the record if there is none, and adds a
  missing `Blocked` flag if the record lacks one. It then writes the user's id, `Blocked`
  flag, email, name and admin status into the token. The `session` callback copies the
  token into `session.user`.

Modules:

- `Wrappers` (`wrappers.dfy`): `Option`.
- `Strings` (`strings.dfy`): decimal rendering and parsing of page numbers, the order
  behind `sort()`, and `split`, `join` and `trim`.
- `Notes` (`notes.dfy`): posts, facets, dropdown options, the filtered list, pagination,
  and the effect of a click in a dropdown. All of these are pure functions.
- `NotesQuery` (`notes_query.dfy`): the query written by the `useEffect`, the state read
  back from a query, and the round trip between the two.
- `NotesPage` (`notes_page.dfy`): the component state as a class. Its fields are the four
  selected facets and `currentPage`. Its methods are the click handlers, the page change,
  the query sync and the semester menu, which is sorted in place by a selection sort on an
  array.
- `Auth` (`auth.dfy`): user records, the token, the session, and the admin allow-list. The
  class `UserStore` holds the collection as a map keyed by email, and its `Jwt` method runs
  the callback step by step.

Behaviour as the code has it:

- A facet change does not reset the page. None of the click handlers touches
  `currentPage`, so the page number is kept.
- Nothing forces the selection to be a prefix of the hierarchy, because a query can set any
  tuple. What is proved instead: choosing a non-empty value in an enabled dropdown keeps a
  prefix-shaped selection prefix-shaped (`Notes.Choose`).
- The options use strict equality on the facets above, with no emptiness guard. A post
  without a university never contributes a degree, even when no university is selected.
- On a first sign-in the id of the inserted record is not put into the token. The token
  keeps its previous `id`, and its `Blocked` is `false`.
- An empty admin list, or one ending in a comma, contains the entry `""`. A sign-in without
  an email therefore gets `isAdmin = true` (`Auth.BlankEntryAdmitsMissingEmail`).

## Model

| member | source | states |
|---|---|---|
| Notes.Dedup | app/notes/page.tsx:68-70 | `Array.from(new Set(...))`: the same members as the input, no duplicates, never longer |
| Notes.Options | app/notes/page.tsx:68-103 | a dropdown offers exactly the non-empty values at its level of posts whose facets above equal the selection, each once |
| Notes.Candidates | app/notes/page.tsx:73-76 | the `filter(...).map(...).filter(Boolean)` chain of each dropdown (also lines 69, 81-88 and 93-101): never longer than the posts, and no value is empty |
| Notes.CandidatesAppend | app/notes/page.tsx:68-103 | the values fed to the `Set` for a concatenation of posts are those of each part, one after the other |
| Notes.CandidatesOfOne | app/notes/page.tsx:68-103 | one post feeds exactly its own value at the level when it offers one, and nothing otherwise |
| Notes.FirstOffer | app/notes/page.tsx:68-103 | the index of a post offering the value with no earlier post offering it |
| Notes.OptionsInFirstOccurrenceOrder | app/notes/page.tsx:68-103 | of two options, the earlier is first offered by an earlier post (the `Set`'s insertion order) |
| Notes.UniversityOptionsIgnoreSelection | app/notes/page.tsx:68-70 | the university options are the same whatever is selected |
| Notes.OptionsIgnoreFlags | app/notes/page.tsx:68-103 | options depend only on metadata, not on `published` or `excludeFromMain` |
| Notes.Listed | app/notes/page.tsx:105-115 | the `filteredPosts` predicate: a listed post is published, not excluded, and equals every non-empty selected facet |
| Notes.EmptySelectionListsPublished | app/notes/page.tsx:105-115 | with nothing selected exactly the published, non-excluded posts are listed, and any selection lists no more than that |
| Notes.FilterPosts | app/notes/page.tsx:105-115 | a post is listed iff it is published, not excluded, and every non-empty facet equals its metadata; the result is a sub-multiset of the input |
| Notes.FilterPostsAppend | app/notes/page.tsx:105-115 | filtering keeps input order (it distributes over concatenation) |
| Notes.ListedPostsAreOffered | app/notes/page.tsx:68-115 | with every facet above selected, a listed post's own non-empty value is among the options |
| Notes.TotalPages | app/notes/page.tsx:117 | the ceiling of `n / 6`: the fewest pages of six that hold `n` posts, zero only for none |
| Notes.PageSlice | app/notes/page.tsx:118-121 | page `p` is the posts from `6(p-1)`, at most six, and non-empty within range; pages past the end and page 0 are empty |
| Notes.PagesReassemble | app/notes/page.tsx:117-121 | pages 1 to `totalPages` concatenate to the whole filtered list, and their lengths sum to its length |
| Notes.Enabled | app/notes/page.tsx:166 | the `disabled={!selectedX}` buttons (also lines 187 and 207): a dropdown is enabled iff the facet directly above is selected; on a prefix-shaped selection every facet above is selected |
| Notes.Choose | app/notes/page.tsx:152-215 | a click sets its facet, keeps the facets above, clears the ones below, and keeps a prefix-shaped selection prefix-shaped |
| Notes.ChooseClearsLowerFilters | app/notes/page.tsx:105-115 | after a click only the facets down to the clicked one restrict the list |
| NotesPage.NotesView.SelectUniversity | app/notes/page.tsx:152-157 | the university click: the new selection is `Choose` at University; the page is unchanged |
| NotesPage.NotesView.SelectDegree | app/notes/page.tsx:174-178 | the degree click: `Choose` at Degree; the page is unchanged |
| NotesPage.NotesView.SelectSemester | app/notes/page.tsx:195-198 | the semester click: `Choose` at Semester; the page is unchanged |
| NotesPage.NotesView.SelectSubject | app/notes/page.tsx:215 | the subject click changes only the subject |
| NotesPage.NotesView.ChangePage | app/notes/page.tsx:254 | a page change keeps the selection and sets the page |
| NotesPage.NotesView.constructor | app/notes/page.tsx:32-46 | the initial state is the state read from the query, with page at least 1 |
| NotesPage.NotesView.SyncQuery | app/notes/page.tsx:48-55 | the pairs set one by one are exactly `ToQuery` of the current state |
| NotesPage.MinIndex | app/notes/page.tsx:192 | finds an index of a least element of the unsorted suffix |
| NotesPage.SortInPlace | app/notes/page.tsx:192 | `semesters.sort()`: the array ends sorted and is a permutation of what it held |
| NotesPage.DistinctPermutation | app/notes/page.tsx:192 | a permutation of a duplicate-free list is duplicate-free |
| NotesPage.NotesView.SemesterMenu | app/notes/page.tsx:79-90 | the semester menu is sorted, duplicate-free, and a permutation of the semester options |
| NotesQuery.Lookup | app/notes/page.tsx:32-43 | `searchParams.get`: present iff some pair has the key, and then the value of such a pair |
| NotesQuery.LookupAppend | app/notes/page.tsx:32-43 | a lookup in a concatenation finds the first part's match first |
| NotesQuery.ToQuery | app/notes/page.tsx:48-55 | the query is never empty and ends with `page` set to the current page |
| NotesQuery.ToQueryOrdered | app/notes/page.tsx:48-55 | keys appear at most once, in the order university, degree, semester, subject, page; facet values are non-empty |
| NotesQuery.LookupFacets | app/notes/page.tsx:48-55 | a lookup through the four optional facet pairs finds the selected facet with that key, else looks further |
| NotesQuery.ToQueryLookup | app/notes/page.tsx:48-55 | in the query a facet key is present iff the facet is selected, with its value, and `page` always is |
| NotesQuery.ParsePage | app/notes/page.tsx:44-46 | the loaded page is at least 1; a positive decimal number is taken as is; a missing, empty, zero or non-numeric value gives 1 |
| NotesQuery.FromQuery | app/notes/page.tsx:32-46 | a facet present in the query loads with its value, a missing one as `""`; the page is the parsed `page` parameter, at least 1 |
| NotesQuery.PageRoundTrip | app/notes/page.tsx:44-55 | a page number from 1 on, written and read back, is unchanged |
| NotesQuery.QueryRoundTrip | app/notes/page.tsx:32-55 | projecting a state with page at least 1 and loading it back restores it |
| NotesQuery.LoadedStateIsStable | app/notes/page.tsx:32-55 | a state loaded from any query reloads unchanged from its own projection |
| Strings.NatToString | app/notes/page.tsx:55 | `toString()` gives decimal digits, with no leading zero except for 0 itself |
| Strings.DecimalRoundTrip | app/notes/page.tsx:44-55 | reading back the digits of `n` gives `n` |
| Strings.LexLeTotal | app/notes/page.tsx:192 | any two strings are comparable in the sort order |
| Strings.LexLeTransitive | app/notes/page.tsx:192 | the sort order is transitive |
| Strings.LexLeAntisymmetric | app/notes/page.tsx:192 | strings that sort at or before each other are equal |
| Strings.Split | lib/auth.ts:52 | `split(",")` gives at least one piece, none holding the separator |
| Strings.JoinSplit | lib/auth.ts:52 | joining the pieces of a split gives the string back |
| Strings.SplitJoin | lib/auth.ts:52 | splitting a join of separator-free entries gives the entries back |
| Strings.Trim | lib/auth.ts:52 | `trim()` leaves no whitespace at either end |
| Strings.TrimIsInfix | lib/auth.ts:52 | what `trim()` keeps is a middle part of the string, and only whitespace is cut off |
| Strings.TrimPadded | lib/auth.ts:52 | trimming whitespace-padded text gives the text back |
| Auth.Or | lib/auth.ts:24 | JavaScript `\|\|` on optional strings: the result is one of the two operands, and it is truthy iff either operand is |
| Auth.SignInEmail | lib/auth.ts:24 | `user.email \|\| token.email`: one of the two, truthy iff either is, and the user's when it is truthy |
| Auth.AdminEmails | lib/auth.ts:51-52 | the allow-list entries are trimmed and comma-free; an absent list gives none |
| Auth.AdminEmailsOfJoin | lib/auth.ts:51-52 | the allow-list of a comma-separated list is its entries, each trimmed, in order |
| Auth.IsAdmin | lib/auth.ts:53 | `adminEmails.includes(email \|\| "")`: only with a list, and only for an email with no comma and no surrounding whitespace |
| Auth.AdminMembership | lib/auth.ts:51-53 | an email is an admin iff it equals some entry of the comma-separated list once trimmed |
| Auth.PaddedEntryMatches | lib/auth.ts:51-53 | whitespace around an entry does not stop it from matching |
| Auth.SpacedListExample | lib/auth.ts:51-53 | with `"a@x.com, b@x.com"`, `b@x.com` is an admin |
| Auth.BlankEntryAdmitsMissingEmail | lib/auth.ts:52-53 | an empty list, or one ending in a comma, holds `""`, so a sign-in without an email is an admin |
| Auth.NoListNoAdmins | lib/auth.ts:51-53 | with no allow-list nobody is an admin |
| Auth.FindUser | lib/auth.ts:25 | `findOne({ email })` on a collection keyed by email: a record is found iff one holds that email, and the record found holds it |
| Auth.NewUser | lib/auth.ts:29-35 | the inserted document: the given id and email, `Blocked` false, `createdAt` now, name and image from the user, else the token, else `""` |
| Auth.StoreAfterSignIn | lib/auth.ts:24-42 | inserts exactly one record, with `Blocked` false and the name and image fallbacks, when none exists; only back-fills `Blocked` on a record lacking it; leaves a record with `Blocked` and every other record alone; never resets `Blocked = true`; keeps records keyed by their email |
| Auth.TokenAfterSignIn | lib/auth.ts:44-53 | the token's id is the found record's, else the old one; `Blocked` is the found record's flag, else false; email, name and admin status as resolved |
| Auth.TokenBlockedMatchesStore | lib/auth.ts:27-46 | the token's `Blocked` equals the stored flag after the sign-in |
| Auth.SignInIdempotent | lib/auth.ts:24-42 | a second sign-in with the same email leaves the collection as the first left it |
| Auth.UserStore.Jwt | lib/auth.ts:19-56 | on a collection keyed by email: without `user`, token and collection are unchanged; with one, the collection and token are `StoreAfterSignIn` and `TokenAfterSignIn`; the collection stays keyed by email |
| Auth.Session | lib/auth.ts:58-66 | the session copies id, `Blocked` and `isAdmin`; a missing email, name or picture becomes `""` |
| Auth.SessionAfterSignIn | lib/auth.ts:44-66 | after a sign-in the session has the resolved email, the stored `Blocked` flag and the admin decision |

## Left out

- Rendering, `Suspense`, dynamic imports and the child components (search box, post boxes, pagination control, error tag) are not modelled. They are UI, and their code is not part of this model.
- `router.replace` and percent-encoding are not modelled. The query is the list of key/value pairs before encoding.
- NotesQuery.ParsePage: models `Number(raw) || 1` only for digit strings. Whitespace-padded, signed, fractional, hexadecimal or exponent forms all give 1 here, although JavaScript would parse some of them. A JS number is a double, and that is not modelled either.
- Notes.PageSlice: the page is a `nat`. Page 0 gives an empty slice, as `slice(-6, 0)` does. Negative pages and negative-index slicing are not modelled.
- Strings.LexLe: orders by Unicode scalar value. JavaScript's default `sort()` compares UTF-16 code units, which differs for characters outside the Basic Multilingual Plane.
- The NextAuth provider configuration, the secret, the session strategy and the environment reads are not modelled. The admin list is a parameter.
- MongoDB's asynchronous I/O and its failures are not modelled, and neither is the race between two simultaneous first sign-ins. The generated `_id` and `new Date()` are parameters of `Jwt`.
- Auth.UserStore.Jwt: a `Blocked` field holding null is not represented. A record either lacks the flag or holds a boolean.
- Auth.UserStore.Jwt: the collection holds at most one record per email (a map), each under its own email, and `Jwt` requires that (`Valid`). A collection with duplicate emails is not modelled; on one, the source's `findOne` and `updateOne` pick the first match.
