/** The `UserTable` component: its three pieces of state (sort column, sort
    direction, page index) live in a class; the `users` prop is a field the
    parent replaces. Sorted rows, page rows, the page count and the page
    buttons are functions of that state. */
module UserTableView {
  import opened Users
  import opened TableSort
  import opened TablePaging

  datatype SortState = SortState(column: Column, direction: Direction)

  /** `handleSort(column)`: clicking the current column flips the direction,
      clicking another column selects it in ascending order. */
  function ToggleSort(s: SortState, column: Column): (r: SortState)
    ensures r.column == column
    ensures s.column == column ==> r.direction != s.direction
    ensures s.column != column ==> r.direction == Asc
  {
    if s.column == column then
      SortState(column, if s.direction == Asc then Desc else Asc)
    else SortState(column, Asc)
  }

  /** Clicking the same header twice restores the sort state exactly when
      that header was already the sort column. */
  lemma ToggleTwice(s: SortState, column: Column)
    ensures ToggleSort(ToggleSort(s, column), column) == s <==> s.column == column
  {
  }

  class UserTable {
    var users: seq<User>
    var sortBy: Column
    var sortDirection: Direction
    var page: nat

    /** The page index names an existing page, or is 0 when the list is empty. */
    ghost predicate Valid()
      reads this
    {
      page == 0 || page < TotalPages(|users|)
    }

    /** First render: sorted by name, ascending, on the first page. */
    constructor (users: seq<User>)
      ensures Valid()
      ensures this.users == users && sortBy == Name && sortDirection == Asc && page == 0
    {
      this.users := users;
      sortBy := Name;
      sortDirection := Asc;
      page := 0;
    }

    /** `sortedUsers`: a sorted copy of `users`. */
    function SortedUsers(): (r: seq<User>)
      reads this
      ensures |r| == |users| && multiset(r) == multiset(users)
      ensures Ordered(r, sortBy, sortDirection)
    {
      SortUsers(users, sortBy, sortDirection)
    }

    /** `paginatedUsers`: the current page of the sorted rows. It is empty
        ("No users to display") exactly when the page index is past the last
        page; in a valid state that happens only when there are no users. */
    function PaginatedUsers(): (r: seq<User>)
      reads this
      ensures |r| <= RowsPerPage
      ensures |r| > 0 <==> page < TotalPages(|users|)
      ensures Valid() ==> (|r| > 0 <==> |users| > 0)
      ensures forall k :: 0 <= k < |r| ==> page * RowsPerPage + k < |users| && r[k] == SortedUsers()[page * RowsPerPage + k]
    {
      var sorted := SortedUsers();
      PageSlice(sorted, page)
    }

    /** The pagination bar is rendered only with more than one page. */
    predicate PaginationShown()
      reads this
      ensures PaginationShown() <==> |users| > RowsPerPage
    {
      TotalPages(|users|) > 1
    }

    /** The page numbers of the buttons between Previous and Next. */
    function PageButtons(): (w: seq<int>)
      reads this
      ensures forall i :: 0 <= i < |w| ==> 0 <= w[i] < TotalPages(|users|)
      ensures page < TotalPages(|users|) ==> page in w
    {
      PageWindow(page, TotalPages(|users|))
    }

    /** The parent renders the mounted table with a new `users` array. This
        render still uses the old page index, so `Valid()` may not hold until
        the effect below has run. */
    method ReceiveUsers(newUsers: seq<User>)
      modifies this
      ensures users == newUsers
      ensures sortBy == old(sortBy) && sortDirection == old(sortDirection) && page == old(page)
    {
      users := newUsers;
    }

    /** The effect on `[users]`, run after that render: back to page 0, with
        the sort kept. */
    method ResetPage()
      modifies this
      ensures page == 0 && Valid()
      ensures users == old(users) && sortBy == old(sortBy) && sortDirection == old(sortDirection)
    {
      page := 0;
    }

    /** `handleSort(column)`; the page index is not touched. */
    method HandleSort(column: Column)
      requires Valid()
      modifies this
      ensures SortState(sortBy, sortDirection) == ToggleSort(old(SortState(sortBy, sortDirection)), column)
      ensures users == old(users) && page == old(page)
      ensures Valid()
    {
      if sortBy == column {
        sortDirection := if sortDirection == Asc then Desc else Asc;
      } else {
        sortBy := column;
        sortDirection := Asc;
      }
    }

    /** The Previous button: `setPage(Math.max(0, page - 1))`. */
    method PreviousPage()
      requires Valid()
      modifies this
      ensures page == Max(0, old(page) - 1)
      ensures users == old(users) && sortBy == old(sortBy) && sortDirection == old(sortDirection)
      ensures Valid()
    {
      page := Max(0, page - 1);
    }

    /** The Next button, which exists only while the pagination bar is shown:
        `setPage(Math.min(totalPages - 1, page + 1))`. */
    method NextPage()
      requires Valid() && PaginationShown()
      modifies this
      ensures page == Min(TotalPages(|users|) - 1, old(page) + 1)
      ensures users == old(users) && sortBy == old(sortBy) && sortDirection == old(sortDirection)
      ensures Valid()
    {
      page := Min(TotalPages(|users|) - 1, page + 1);
    }

    /** A numbered page button: `setPage(pageNum)`. */
    method GoToPage(pageNum: int)
      requires Valid() && PaginationShown() && pageNum in PageButtons()
      modifies this
      ensures page == pageNum
      ensures users == old(users) && sortBy == old(sortBy) && sortDirection == old(sortDirection)
      ensures Valid()
    {
      page := pageNum;
    }
  }
}
