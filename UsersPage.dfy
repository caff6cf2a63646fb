/** The users page as a whole: the fetched list, the search term, and the
    `UserTable`, which is mounted only while some user matches the term. */
module UsersPageState {
  import opened Users
  import opened SearchFilter
  import opened TableSort
  import opened TablePaging
  import opened UserTableView

  class UsersPage {
    const users: seq<User>
    var searchTerm: string
    /** The mounted table, or `null` while "No users found" is shown. */
    var table: UserTable?

    /** The table is mounted exactly when the filtered list is non-empty, and
        then it holds that list and a page index that exists. */
    ghost predicate Valid()
      reads this, table
    {
      (table != null <==> FilterUsers(users, searchTerm) != []) &&
      (table != null ==> table.users == FilterUsers(users, searchTerm) && table.Valid())
    }

    /** First render: the term is empty, and the table, if any, starts in its
        initial state with every fetched user. */
    constructor (users: seq<User>)
      ensures Valid() && this.users == users && searchTerm == InitialSearchTerm
      ensures table != null ==> fresh(table) && table.users == users
      ensures table != null ==> table.sortBy == Name && table.sortDirection == Asc && table.page == 0
    {
      this.users := users;
      searchTerm := InitialSearchTerm;
      EmptyTermKeepsAll(users);
      if users != [] {
        table := new UserTable(users);
      } else {
        table := null;
      }
    }

    /** `onChange`: a new term. With no match the table is unmounted and its
        state is lost. A table mounted afresh starts sorted by name, ascending,
        on page 0. A table that stays mounted keeps its sort, first renders
        the new list on its old page (`shownBeforeReset`) and is then sent back
        to page 0 by its effect. */
    method SetSearchTerm(term: string) returns (shownBeforeReset: seq<User>)
      requires Valid() && term != searchTerm
      modifies this, table
      ensures Valid() && searchTerm == term
      ensures table == null <==> FilterUsers(users, term) == []
      ensures old(table) == null && table != null ==>
        fresh(table) && table.sortBy == Name && table.sortDirection == Asc && table.page == 0
      ensures old(table) != null && table != null ==>
        table == old(table) && table.page == 0 &&
        table.sortBy == old(table.sortBy) && table.sortDirection == old(table.sortDirection) &&
        shownBeforeReset == PageSlice(SortUsers(table.users, table.sortBy, table.sortDirection), old(table.page))
    {
      searchTerm := term;
      var filtered := FilterUsers(users, term);
      shownBeforeReset := [];
      if filtered == [] {
        table := null;
      } else if table == null {
        table := new UserTable(filtered);
      } else {
        table.ReceiveUsers(filtered);
        shownBeforeReset := table.PaginatedUsers();
        table.ResetPage();
      }
    }
  }

  /** The render between a new list and the page reset can show nothing: a
      table on page 4 (index 3) whose list shrinks to five users slices past
      the end and shows "No users to display". */
  lemma StaleRenderEmpty(rows: seq<User>)
    requires |rows| == 5
    ensures PageSlice(rows, 3) == [] && !(3 < TotalPages(|rows|))
  {
  }
}
