/** The debug search page: the same search written with an early return for
    the empty term and one flag per field. */
module DebugSearch {
  import opened Text
  import opened Users
  import opened SearchFilter

  /** The per-user test with its three named flags; it is the users page's
      test written out flag by flag. */
  predicate DebugKeep(u: User, searchTerm: string)
    ensures DebugKeep(u, searchTerm) == Matches(u, searchTerm)
  {
    var term := Lower(searchTerm);
    var matchesName := Includes(Lower(u.name), term);
    var matchesEmail := Includes(Lower(u.email), term);
    var matchesCompany := Includes(Lower(u.company.name), term);
    matchesName || matchesEmail || matchesCompany
  }

  /** `users.filter(user => { ...flags... })` */
  function DebugMatches(users: seq<User>, searchTerm: string): (r: seq<User>)
    ensures IsSubsequence(r, users)
    ensures |r| <= |users|
    ensures forall u :: u in r <==> u in users && DebugKeep(u, searchTerm)
  {
    if users == [] then []
    else
      var rest := DebugMatches(users[1..], searchTerm);
      if DebugKeep(users[0], searchTerm) then [users[0]] + rest else rest
  }

  /** `filteredUsers`: the empty term returns the input list itself. */
  function DebugFilter(users: seq<User>, searchTerm: string): (r: seq<User>)
    ensures searchTerm == "" ==> r == users
    ensures IsSubsequence(r, users) && |r| <= |users|
    ensures searchTerm != "" ==> forall u :: u in r <==> u in users && DebugKeep(u, searchTerm)
  {
    if searchTerm == "" then
      SubsequenceRefl(users);
      users
    else DebugMatches(users, searchTerm)
  }

  /** Every sequence is a subsequence of itself. */
  lemma {:induction false} SubsequenceRefl<T>(s: seq<T>)
    ensures IsSubsequence(s, s)
  {
    if s != [] {
      SubsequenceRefl(s[1..]);
    }
  }

  /** For every term, the empty one included, the debug page selects exactly
      the users the users page selects. */
  lemma {:induction false} SameAsUsersPage(users: seq<User>, searchTerm: string)
    ensures DebugFilter(users, searchTerm) == FilterUsers(users, searchTerm)
  {
    if searchTerm == "" {
      EmptyTermKeepsAll(users);
    } else {
      SameMatches(users, searchTerm);
    }
  }

  lemma {:induction false} SameMatches(users: seq<User>, searchTerm: string)
    ensures DebugMatches(users, searchTerm) == FilterUsers(users, searchTerm)
  {
    if users != [] {
      SameMatches(users[1..], searchTerm);
    }
  }

  /** What the debug page shows: the term in the box, the echo of that term,
      the results and the "Results: x of y" counts. */
  datatype DebugView = DebugView(boxValue: string, echoedTerm: string, results: seq<User>, resultCount: nat, total: nat)

  /** There is one term variable: the box, the echo and the filter all use
      it, so the listed results are always those of the term on screen. */
  function RenderDebug(users: seq<User>, searchTerm: string): (v: DebugView)
    ensures v.boxValue == v.echoedTerm == searchTerm
    ensures v.results == FilterUsers(users, searchTerm)
    ensures v.resultCount == |v.results| <= v.total == |users|
  {
    var filtered := DebugFilter(users, searchTerm);
    SameAsUsersPage(users, searchTerm);
    DebugView(searchTerm, searchTerm, filtered, |filtered|, |users|)
  }
}
