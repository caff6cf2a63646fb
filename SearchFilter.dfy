/** The users page: a search box whose term filters the fetched list, and
    either the table of matching users or a "No users found" message. */
module SearchFilter {
  import opened Text
  import opened Users

  /** The term the search box starts with. */
  const InitialSearchTerm: string := ""

  /** A user matches when the lower-cased name, email or company name
      includes the lower-cased term. */
  predicate Matches(u: User, term: string)
    ensures term == "" ==> Matches(u, term)
  {
    var t := Lower(term);
    Includes(Lower(u.name), t) || Includes(Lower(u.email), t) || Includes(Lower(u.company.name), t)
  }

  /** `a` is `b` with some elements left out, the rest in their original order. */
  predicate IsSubsequence<T(==)>(a: seq<T>, b: seq<T>)
    decreases |b|
  {
    a == [] || (|b| > 0 && ((a[0] == b[0] && IsSubsequence(a[1..], b[1..])) || IsSubsequence(a, b[1..])))
  }

  /** `users.filter(...)` over the three substring tests. */
  function FilterUsers(users: seq<User>, term: string): (r: seq<User>)
    ensures IsSubsequence(r, users)
    ensures |r| <= |users|
  {
    if users == [] then []
    else
      var rest := FilterUsers(users[1..], term);
      assert users == [users[0]] + users[1..];
      if Matches(users[0], term) then [users[0]] + rest else rest
  }

  /** A user is in the result iff it is in `users` and matches the term. */
  lemma {:induction false} FilterMembers(users: seq<User>, term: string, u: User)
    ensures u in FilterUsers(users, term) <==> u in users && Matches(u, term)
  {
    if users != [] {
      FilterMembers(users[1..], term, u);
      assert users == [users[0]] + users[1..];
    }
  }

  /** No copy of a matching user is dropped and no other user is kept:
      each user occurs in the result as often as in `users` if it matches,
      and not at all otherwise. */
  lemma {:induction false} FilterCounts(users: seq<User>, term: string, u: User)
    ensures multiset(FilterUsers(users, term))[u] == if Matches(u, term) then multiset(users)[u] else 0
  {
    if users != [] {
      FilterCounts(users[1..], term, u);
      assert users == [users[0]] + users[1..];
    }
  }

  /** The empty term keeps every user: every string includes "". */
  lemma {:induction false} EmptyTermKeepsAll(users: seq<User>)
    ensures FilterUsers(users, "") == users
  {
    if users != [] {
      IncludesEmpty(Lower(users[0].name));
      EmptyTermKeepsAll(users[1..]);
    }
  }

  /** Terms that differ only in letter case select the same users. */
  lemma {:induction false} CaseInsensitiveTerm(users: seq<User>, t1: string, t2: string)
    requires Lower(t1) == Lower(t2)
    ensures FilterUsers(users, t1) == FilterUsers(users, t2)
  {
    if users != [] {
      CaseInsensitiveTerm(users[1..], t1, t2);
    }
  }

  /** Filtering the result again with the same term changes nothing. */
  lemma {:induction false} FilterIdempotent(users: seq<User>, term: string)
    ensures FilterUsers(FilterUsers(users, term), term) == FilterUsers(users, term)
  {
    if users != [] {
      FilterIdempotent(users[1..], term);
    }
  }

  /** What the users page shows below the search box. */
  datatype View = NoUsersFound | Table(rows: seq<User>)

  /** The table is given the filtered list only when it is non-empty;
      an empty result takes the "No users found" branch. */
  function UsersPageView(users: seq<User>, term: string): (v: View)
    ensures v.Table? <==> exists u :: u in users && Matches(u, term)
    ensures v.Table? ==> |v.rows| > 0 && v.rows == FilterUsers(users, term)
  {
    var filtered := FilterUsers(users, term);
    if |filtered| > 0 then
      FilterMembers(users, term, filtered[0]);
      Table(filtered)
    else
      assert forall u :: u in users && Matches(u, term) ==> u in filtered by {
        forall u | u in users && Matches(u, term) ensures u in filtered {
          FilterMembers(users, term, u);
        }
      }
      NoUsersFound
  }

  /** On the first render the term is still empty, so every fetched user is
      shown, and the table appears whenever the fetch returned anyone. */
  lemma FirstRenderShowsAll(users: seq<User>)
    ensures UsersPageView(users, InitialSearchTerm) == if users == [] then NoUsersFound else Table(users)
  {
    EmptyTermKeepsAll(users);
  }
}
