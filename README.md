# User directory list view — search, sort and pagination

This project models the client-side list logic of a small server-rendered
user directory, written in Dafny and proved. The application fetches a list of
users and shows it on two pages:

- **The users page** has a search box. Its term keeps a user when the user's
  name, email or company name contains the term, ignoring letter case. The
  result goes to the user table, or the page shows "No users found" when
  nothing matches.
- **The debug page** runs the same search. It returns early for the empty term
  and keeps one flag per field.
- **The user table** has three pieces of state: the sort column (`name`,
  `email` or `company`), the sort direction, and the page index. Clicking a
  header sorts by that column. The sort is a stable sort whose comparator
  works on lower-cased column values. The table shows ten rows per page, with
  Previous/Next buttons and a window of up to five numbered page buttons.
  Whenever the parent passes a new `users` array, the table goes back to the
  first page. The users page mounts the table only while some user matches,
  so a search with no match discards the table's state: when matches return,
  the table starts again sorted by name, ascending, on the first page.

Modules, one per source file or component:

| file | module | models |
|---|---|---|
| `Text.dfy` | `Text` | ASCII `toLowerCase`, `String.prototype.includes`, JavaScript `<` on strings |
| `Users.dfy` | `Users` | the user record (`id`, `name`, `email`, `company.name`) |
| `SearchFilter.dfy` | `SearchFilter` | `src/pages/users/index.tsx` |
| `DebugSearch.dfy` | `DebugSearch` | `src/pages/debug.tsx` |
| `TableSort.dfy` | `TableSort` | the comparator and stable sort of `src/components/UserTable.tsx` |
| `TablePaging.dfy` | `TablePaging` | the slicing, page count, "Showing" range and page buttons of `src/components/UserTable.tsx` |
| `UserTable.dfy` | `UserTableView` | the table's state as a class `UserTable` with one method per state update |
| `UsersPage.dfy` | `UsersPageState` | the users page's term and its mounted (or unmounted) table, as a class `UsersPage` |

The filters, the sort and the pagination are pure, so they are functions with
lemmas. The table's `useState` fields and their setters are a class:
`sortBy`, `sortDirection`, `page` and the `users` prop are its fields. Its
methods are the render with a new `users` array (`ReceiveUsers`), the effect
on `[users]` (`ResetPage`), `handleSort`, Previous, Next and the numbered
buttons. Each method's contract gives the new state. `Valid()` means the page
index names an existing page, or is 0 when the list is empty. Every method
except `ReceiveUsers` ends in a valid state. `ReceiveUsers` is the one state
change that may leave the page past the last page, and `ResetPage`, which runs
straight after it, restores `Valid()`.

`Array.prototype.sort` is required to be stable since ES2019 (section
23.1.3.30 of ECMA-262, 2023 edition). Here it is modelled as an insertion sort
driven by the source's comparator. `StableSortUnique` proves that any ordered
list that keeps each key's users in their input order is exactly this list.
So every conforming engine returns the same result.

Some points about the code that the model keeps as written:

- There is no debounce, no committed copy of the term and no URL
  synchronisation. Each page keeps the search term in a single state variable,
  and `onChange` writes it directly.
- `totalPages` is `Math.ceil(n / 10)`, which is 0 for an empty list (not at
  least 1). The page index is not clamped before slicing. Sorting and the
  page buttons keep the page in range (`Valid()`). A new, shorter list is
  first rendered on the old page, which can be past the end and then shows
  "No users to display" (`StaleRenderEmpty`). The effect that follows puts
  the page back to 0.
- The sort always compares lower-cased values. The sort does not reset the
  page.

## Model

| member | source | states |
|---|---|---|
| `Text.Lower` | src/pages/users/index.tsx:15-17 | lower-casing keeps the length, maps each character on its own, and leaves no upper-case ASCII letter |
| `Text.LowerIdempotent` | src/pages/users/index.tsx:15-17 | lower-casing an already lower-cased string changes nothing |
| `Text.IncludesIff` | src/pages/users/index.tsx:15-17 | the left-to-right `includes` scan holds exactly when some position of the text starts an occurrence of the term |
| `Text.Includes` | src/pages/users/index.tsx:15-17 | `includes`: a match needs a term no longer than the text; `IncludesIff` proves it equal to the substring definition |
| `Text.LexLess` | src/components/UserTable.tsx:48-49 | JavaScript `<` on strings: it never holds between equal strings; `LexTrichotomy` and `LexLessTransitive` make it a strict total order |
| `Text.IncludesEmpty` | src/pages/users/index.tsx:15-17 | every string includes the empty string |
| `Text.LexTrichotomy` | src/components/UserTable.tsx:48-49 | string `<` is total and asymmetric: exactly one of `a < b`, `a == b`, `b < a` |
| `Text.LexLessTransitive` | src/components/UserTable.tsx:48-49 | string `<` is transitive |
| `Text.LexLessIrreflexive` | src/components/UserTable.tsx:48-49 | no string is `<` itself |
| `SearchFilter.Matches` | src/pages/users/index.tsx:15-17 | the per-user test; every user matches the empty term. `FilterMembers` states how it selects users |
| `SearchFilter.FilterUsers` | src/pages/users/index.tsx:14-18 | the result is a subsequence of `users`: order kept, length at most `users.length` |
| `SearchFilter.FilterMembers` | src/pages/users/index.tsx:14-18 | a user is in the result iff it is in `users` and its lower-cased name, email or company name includes the lower-cased term |
| `SearchFilter.FilterCounts` | src/pages/users/index.tsx:14-18 | every copy of a matching user is kept and nothing else: a user occurs in the result as often as in `users` if it matches, and not at all otherwise |
| `SearchFilter.EmptyTermKeepsAll` | src/pages/users/index.tsx:14-18 | the empty term returns `users` unchanged |
| `SearchFilter.CaseInsensitiveTerm` | src/pages/users/index.tsx:15-17 | two terms that lower-case to the same string give the same result |
| `SearchFilter.FilterIdempotent` | src/pages/users/index.tsx:14-18 | filtering the result again with the same term returns it unchanged |
| `SearchFilter.UsersPageView` | src/pages/users/index.tsx:47-57 | the table is shown iff some user matches, and then it gets exactly the non-empty filtered list; otherwise "No users found" |
| `SearchFilter.FirstRenderShowsAll` | src/pages/users/index.tsx:12 | with the initial term `''`, the first render shows every fetched user (or "No users found" when none were fetched) |
| `DebugSearch.DebugKeep` | src/pages/debug.tsx:18-21 | the three flags `matchesName`, `matchesEmail`, `matchesCompany` ORed (line 34) give exactly the users page's test |
| `DebugSearch.DebugMatches` | src/pages/debug.tsx:17-34 | a user is kept iff `matchesName`, `matchesEmail` or `matchesCompany` is set; the result is a subsequence of `users` and no longer than it |
| `DebugSearch.DebugFilter` | src/pages/debug.tsx:12-39 | the empty term returns `users` itself (early return); otherwise the result keeps exactly the users whose flags are set, in input order |
| `DebugSearch.SameAsUsersPage` | src/pages/debug.tsx:12-39 | for every term, the empty one included, the debug filter returns the same list as the users-page filter |
| `DebugSearch.RenderDebug` | src/pages/debug.tsx:9-61 | the box and the echo both show the current term, and the listed results are the users page's filter of that same term: there is no separate committed value; the result count is the length of the results and at most the total |
| `TableSort.SortKey` | src/components/UserTable.tsx:40-46 | the compared value is the lower-cased column: it holds no upper-case ASCII letter |
| `TableSort.Compare` | src/components/UserTable.tsx:37-51 | the comparator returns 0 iff the lower-cased keys are equal, and a negative value iff `a`'s key is smaller (ascending) or larger (descending) |
| `TableSort.CompareOrder` | src/components/UserTable.tsx:48-50 | the comparator puts `a` no later than `b` exactly when their keys are in the direction's order; otherwise `b` may precede `a` |
| `TableSort.KeyOrderedTransitive` | src/components/UserTable.tsx:48-50 | the comparator's "no later than" relation is transitive |
| `TableSort.KeyOrderedAntisymmetric` | src/components/UserTable.tsx:48-50 | two users that may each precede the other have equal keys |
| `TableSort.Insert` | src/components/UserTable.tsx:37 | one insertion step adds exactly one user and leaves the list otherwise a permutation |
| `TableSort.InsertOrdered` | src/components/UserTable.tsx:37-51 | inserting into an ordered list gives an ordered list |
| `TableSort.InsertWithKey` | src/components/UserTable.tsx:48-50 | an inserted user goes ahead of all users with an equal key, and every other key group is unchanged |
| `TableSort.SortUsers` | src/components/UserTable.tsx:35-55 | the sorted list is a permutation of `users` (same length, same multiset), ordered by the comparator, and stable: for every key, the users with that key appear in input order |
| `TableSort.SortedByKey` | src/components/UserTable.tsx:37-51 | over every pair of positions, the sorted list is non-decreasing in the lower-cased key for `asc` and non-increasing for `desc` |
| `TableSort.OrderedPairwise` | src/components/UserTable.tsx:37-51 | order between neighbours extends to every pair of positions |
| `TableSort.StableSortUnique` | src/components/UserTable.tsx:37-51 | any ordered list that keeps each key's users in input order is equal to `SortUsers`, so every stable sort gives this result |
| `TableSort.SameKeyGroupsEqual` | src/components/UserTable.tsx:37-51 | two ordered lists with the same users under every key are equal |
| `TablePaging.TotalPages` | src/components/UserTable.tsx:80 | `ceil(n/10)`: enough pages for `n` rows, one fewer would not do, and 0 exactly for the empty list |
| `TablePaging.Slice` | src/components/UserTable.tsx:60 | JavaScript `slice`: at most `end - start` elements, element `k` is `s[start + k]`, and the result is cut at the end of `s` |
| `TablePaging.PageSlice` | src/components/UserTable.tsx:58-63 | a page has at most 10 rows, row `k` is sorted row `page*10 + k`, it is non-empty exactly for pages `0 .. totalPages-1`, and every page before the last is full |
| `TablePaging.PagesArePrefix` | src/components/UserTable.tsx:58-63 | pages `0 .. c-1` laid end to end are the first `min(10c, n)` rows |
| `TablePaging.PagesCoverAll` | src/components/UserTable.tsx:58-63 | pages `0 .. totalPages-1` laid end to end give back the whole sorted list |
| `TablePaging.ShowingFrom` | src/components/UserTable.tsx:215 | the first row number shown is at least 1; `ShowingMatchesSlice` ties it to the slice |
| `TablePaging.ShowingTo` | src/components/UserTable.tsx:217 | the last row number shown is at most `n` and at most `(page+1)*10`; `ShowingMatchesSlice` ties it to the slice |
| `TablePaging.ShowingMatchesSlice` | src/components/UserTable.tsx:215-217 | on an existing page, "Showing `page*10+1` to `min((page+1)*10, n)`" is a non-empty range within `1..n` that names exactly the rows of the page slice |
| `TablePaging.PageWindow` | src/components/UserTable.tsx:237-241 | `min(5, totalPages)` buttons; each names an existing page; the numbers never decrease; the current page is among them |
| `TablePaging.WindowRepeatsAtEnd` | src/components/UserTable.tsx:237-241 | on the last of five pages the buttons read 3, 4, 5, 5, 5: entries repeat near the end |
| `UserTableView.ToggleSort` | src/components/UserTable.tsx:24-32 | clicking the current column keeps it and flips the direction; clicking another column selects it, ascending |
| `UserTableView.ToggleTwice` | src/components/UserTable.tsx:24-32 | clicking the same header twice restores the sort state exactly when it was already the sort column |
| `UserTableView.UserTable.constructor` | src/components/UserTable.tsx:12-14 | initial state: column `name`, direction `asc`, page 0 |
| `UserTableView.UserTable.ReceiveUsers` | src/components/UserTable.tsx:9 | the render with a new `users` array keeps the sort and the old page index, which may now be past the last page |
| `UserTableView.UserTable.ResetPage` | src/components/UserTable.tsx:18-21 | the effect on `[users]` sets the page to 0, keeps the sort and the users, and restores the invariant |
| `UserTableView.UserTable.PaginationShown` | src/components/UserTable.tsx:184 | the pagination bar is shown exactly when there are more than 10 users |
| `UsersPageState.UsersPage.constructor` | src/pages/users/index.tsx:11-18 | first render: empty term; the table is mounted iff some user was fetched, holds every fetched user and starts at name, `asc`, page 0 |
| `UsersPageState.UsersPage.SetSearchTerm` | src/pages/users/index.tsx:36 | a changed term unmounts the table when nothing matches; a newly mounted table starts at name, `asc`, page 0; a table that stays keeps its sort, first renders the new list on its old page, then goes to page 0 |
| `UsersPageState.StaleRenderEmpty` | src/components/UserTable.tsx:58-63 | a table on page index 3 whose list drops to 5 users renders an empty page before its effect resets it |
| `UserTableView.UserTable.HandleSort` | src/components/UserTable.tsx:24-32 | the sort state becomes `ToggleSort` of the old one; users and page are unchanged; the invariant is kept |
| `UserTableView.UserTable.SortedUsers` | src/components/UserTable.tsx:35-55 | the table's sorted rows are a permutation of its users, ordered by the current column and direction |
| `UserTableView.UserTable.PaginatedUsers` | src/components/UserTable.tsx:58-63 | at most 10 rows, taken from the sorted rows at offset `page*10`; empty ("No users to display") exactly when the page index is past the last page, which in a valid state means there are no users |
| `UserTableView.UserTable.PageButtons` | src/components/UserTable.tsx:237-241 | every button names an existing page, and whenever the page index names an existing page, it has a button |
| `UserTableView.UserTable.PreviousPage` | src/components/UserTable.tsx:225 | page becomes `max(0, page-1)`; nothing else changes; the page stays valid |
| `UserTableView.UserTable.NextPage` | src/components/UserTable.tsx:261 | page becomes `min(totalPages-1, page+1)`; nothing else changes; the page stays in `[0, totalPages-1]` |
| `UserTableView.UserTable.GoToPage` | src/components/UserTable.tsx:245-248 | clicking a numbered button sets the page to that button's number, which is an existing page |

## Left out

- Fetching the users (`getServerSideProps` in both pages) is left out; the fetched list is a parameter. On the debug page a non-OK response or an exception gives the empty list (src/pages/debug.tsx:118-124, 133-140). On the users page only an exception (network or JSON parse) gives the empty list: `response.ok` is not checked (src/pages/users/index.tsx:64-71), so a non-OK response with a JSON body that is not an array is passed on as `users`, and `users.filter` then throws. The model only covers a list of users.
- All `console.log` / `console.error` calls are logging only and are left out.
- JSX markup, styling, the sort indicator icons and the per-row links are UI only and are left out. So are the other pages and components, the router/progress-bar plumbing in `_app.tsx`, and the bundler configuration.
- React scheduling (`memo`, `useMemo`, `useEffect`) is not modelled. Memoised values are plain functions of the state. The `[users]` effect is the method `ResetPage`, run after the render `ReceiveUsers` stands for.
- UserTableView.UserTable.ReceiveUsers: React compares `users` by array identity, and the model cannot see identity. The method is the delivery of a new array, and `ResetPage` is the effect that follows it. On the users page every filter run produces a new array, so every search keystroke resets the page. Only changes of the search term are modelled as re-renders of the users page.
- Text.Lower: `toLowerCase` is modelled for ASCII letters only; other Unicode case mappings and locale rules are left out.
- Text.LexLess: JavaScript compares strings by UTF-16 code units. The model compares Dafny characters (Unicode scalar values). The two orders differ only for characters outside the Basic Multilingual Plane.
- UserTableView.UserTable.NextPage: it requires the pagination bar to be shown (`totalPages > 1`), because that is the only place the button is rendered. The mobile copies of Previous/Next (lines 188-203) behave like the desktop ones. The `disabled` attribute only blocks clicks that would not change the page.
- The row fields `phone` and `address` of the user record are not read by this logic and are left out.
