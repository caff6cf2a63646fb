/** The table's sort: a comparator over lower-cased column values, fed to
    JavaScript's stable `Array.prototype.sort`. The sort is modelled as a
    stable insertion sort driven by that comparator; `StableSortUnique`
    shows that every stable sort by it returns the same list. */
module TableSort {
  import opened Text
  import opened Users

  /** The columns a user can click: 'name' | 'email' | 'company'. */
  datatype Column = Name | Email | CompanyName

  datatype Direction = Asc | Desc

  /** The value compared for a column, lower-cased: no key holds an
      upper-case ASCII letter, so the sort ignores letter case. */
  function SortKey(u: User, col: Column): (r: string)
    ensures forall i :: 0 <= i < |r| ==> !('A' <= r[i] <= 'Z')
  {
    match col
    case Name => Lower(u.name)
    case Email => Lower(u.email)
    case CompanyName => Lower(u.company.name)
  }

  /** The comparator handed to `sort`: negative when `a` goes first, positive
      when `b` goes first, 0 when the keys are equal. */
  function Compare(a: User, b: User, col: Column, dir: Direction): (r: int)
    ensures r == 0 <==> SortKey(a, col) == SortKey(b, col)
    ensures r < 0 <==> (if dir == Asc then LexLess(SortKey(a, col), SortKey(b, col))
                                      else LexLess(SortKey(b, col), SortKey(a, col)))
  {
    var valueA, valueB := SortKey(a, col), SortKey(b, col);
    LexTrichotomy(valueA, valueB);
    LexLessIrreflexive(valueA);
    if LexLess(valueA, valueB) then (if dir == Asc then -1 else 1)
    else if LexLess(valueB, valueA) then (if dir == Asc then 1 else -1)
    else 0
  }

  /** `a` may stand before `b` in a list sorted by `col` in direction `dir`:
      key(a) <= key(b) for ascending, key(a) >= key(b) for descending. */
  predicate KeyOrdered(a: User, b: User, col: Column, dir: Direction)
  {
    if dir == Asc then !LexLess(SortKey(b, col), SortKey(a, col))
    else !LexLess(SortKey(a, col), SortKey(b, col))
  }

  /** The comparator puts `a` no later than `b` exactly when their keys are in order. */
  lemma CompareOrder(a: User, b: User, col: Column, dir: Direction)
    ensures Compare(a, b, col, dir) <= 0 <==> KeyOrdered(a, b, col, dir)
    ensures Compare(a, b, col, dir) > 0 ==> KeyOrdered(b, a, col, dir)
  {
    LexTrichotomy(SortKey(a, col), SortKey(b, col));
  }

  lemma KeyOrderedTransitive(a: User, b: User, c: User, col: Column, dir: Direction)
    requires KeyOrdered(a, b, col, dir) && KeyOrdered(b, c, col, dir)
    ensures KeyOrdered(a, c, col, dir)
  {
    var ka, kb, kc := SortKey(a, col), SortKey(b, col), SortKey(c, col);
    LexTrichotomy(ka, kb);
    LexTrichotomy(kb, kc);
    if LexLess(ka, kb) && LexLess(kb, kc) {
      LexLessTransitive(ka, kb, kc);
    } else if LexLess(kb, ka) && LexLess(kc, kb) {
      LexLessTransitive(kc, kb, ka);
    }
    LexTrichotomy(ka, kc);
  }

  lemma KeyOrderedAntisymmetric(a: User, b: User, col: Column, dir: Direction)
    requires KeyOrdered(a, b, col, dir) && KeyOrdered(b, a, col, dir)
    ensures SortKey(a, col) == SortKey(b, col)
  {
    LexTrichotomy(SortKey(a, col), SortKey(b, col));
  }

  /** Neighbours are in key order. */
  predicate Ordered(s: seq<User>, col: Column, dir: Direction)
  {
    forall i :: 0 < i < |s| ==> KeyOrdered(s[i - 1], s[i], col, dir)
  }

  /** The users of `s` whose key is `k`, in the order of `s`. */
  function WithKey(s: seq<User>, col: Column, k: string): (r: seq<User>)
    ensures forall u :: u in r ==> u in s && SortKey(u, col) == k
  {
    if s == [] then []
    else if SortKey(s[0], col) == k then [s[0]] + WithKey(s[1..], col, k)
    else WithKey(s[1..], col, k)
  }

  /** Inserts `x` before the first element the comparator does not put
      before it, so `x` goes ahead of users with an equal key. */
  function Insert(x: User, t: seq<User>, col: Column, dir: Direction): (r: seq<User>)
    ensures |r| == |t| + 1 && multiset(r) == multiset(t) + multiset{x}
    ensures r[0] == x || (|t| > 0 && r[0] == t[0])
  {
    if t == [] || Compare(x, t[0], col, dir) <= 0 then [x] + t
    else
      var rest := Insert(x, t[1..], col, dir);
      assert t == [t[0]] + t[1..];
      assert multiset([t[0]] + rest) == multiset{t[0]} + multiset(rest);
      [t[0]] + rest
  }

  lemma {:induction false} InsertOrdered(x: User, t: seq<User>, col: Column, dir: Direction)
    requires Ordered(t, col, dir)
    ensures Ordered(Insert(x, t, col, dir), col, dir)
  {
    if t == [] {
    } else if Compare(x, t[0], col, dir) <= 0 {
      CompareOrder(x, t[0], col, dir);
      OrderedCons(x, t, col, dir);
    } else {
      var rest := Insert(x, t[1..], col, dir);
      OrderedTail(t, col, dir);
      InsertOrdered(x, t[1..], col, dir);
      CompareOrder(x, t[0], col, dir);
      if rest[0] != x {
        assert rest[0] == t[1];
      }
      OrderedCons(t[0], rest, col, dir);
    }
  }

  /** Putting a user in front of an ordered list keeps it ordered when it
      may stand before the old head. */
  lemma OrderedCons(a: User, s: seq<User>, col: Column, dir: Direction)
    requires Ordered(s, col, dir)
    requires s != [] ==> KeyOrdered(a, s[0], col, dir)
    ensures Ordered([a] + s, col, dir)
  {
    var r := [a] + s;
    forall i | 0 < i < |r|
      ensures KeyOrdered(r[i - 1], r[i], col, dir)
    {
      if i > 1 {
        assert r[i - 1] == s[i - 2] && r[i] == s[i - 1];
      }
    }
  }

  /** The tail of an ordered list is ordered. */
  lemma OrderedTail(s: seq<User>, col: Column, dir: Direction)
    requires Ordered(s, col, dir) && s != []
    ensures Ordered(s[1..], col, dir)
  {
    forall i | 0 < i < |s| - 1
      ensures KeyOrdered(s[1..][i - 1], s[1..][i], col, dir)
    {
      assert s[1..][i - 1] == s[i] && s[1..][i] == s[i + 1];
    }
  }

  /** Inserting `x` adds it at the front of its key's group. */
  lemma {:induction false} InsertWithKey(x: User, t: seq<User>, col: Column, dir: Direction, k: string)
    ensures WithKey(Insert(x, t, col, dir), col, k)
         == if SortKey(x, col) == k then [x] + WithKey(t, col, k) else WithKey(t, col, k)
  {
    if t == [] || Compare(x, t[0], col, dir) <= 0 {
      assert ([x] + t)[1..] == t;
    } else {
      var rest := Insert(x, t[1..], col, dir);
      InsertWithKey(x, t[1..], col, dir, k);
      assert SortKey(t[0], col) != SortKey(x, col);
      assert ([t[0]] + rest)[1..] == rest;
      assert WithKey(t, col, k) == if SortKey(t[0], col) == k then [t[0]] + WithKey(t[1..], col, k) else WithKey(t[1..], col, k);
    }
  }

  /** `[...users].sort(comparator)`: a new list; `users` itself is a value and
      is left as it was. */
  function SortUsers(users: seq<User>, col: Column, dir: Direction): (r: seq<User>)
    ensures |r| == |users| && multiset(r) == multiset(users)
    ensures Ordered(r, col, dir)
    ensures forall k :: WithKey(r, col, k) == WithKey(users, col, k)
  {
    if users == [] then []
    else
      var rest := SortUsers(users[1..], col, dir);
      assert users == [users[0]] + users[1..];
      InsertOrdered(users[0], rest, col, dir);
      assert forall k :: WithKey(Insert(users[0], rest, col, dir), col, k) == WithKey(users, col, k) by {
        forall k ensures WithKey(Insert(users[0], rest, col, dir), col, k) == WithKey(users, col, k) {
          InsertWithKey(users[0], rest, col, dir, k);
        }
      }
      Insert(users[0], rest, col, dir)
  }

  /** The sorted list is non-decreasing in the lower-cased key for `Asc` and
      non-increasing for `Desc`, over every pair of positions. */
  lemma {:induction false} SortedByKey(users: seq<User>, col: Column, dir: Direction)
    ensures var r := SortUsers(users, col, dir);
      forall i, j :: 0 <= i < j < |r| ==>
        if dir == Asc then !LexLess(SortKey(r[j], col), SortKey(r[i], col))
        else !LexLess(SortKey(r[i], col), SortKey(r[j], col))
  {
    var r := SortUsers(users, col, dir);
    forall i, j | 0 <= i < j < |r|
      ensures KeyOrdered(r[i], r[j], col, dir)
    {
      OrderedPairwise(r, col, dir, i, j);
    }
  }

  lemma {:induction false} OrderedPairwise(s: seq<User>, col: Column, dir: Direction, i: int, j: int)
    requires Ordered(s, col, dir) && 0 <= i < j < |s|
    ensures KeyOrdered(s[i], s[j], col, dir)
    decreases j - i
  {
    if i + 1 < j {
      OrderedPairwise(s, col, dir, i, j - 1);
      KeyOrderedTransitive(s[i], s[j - 1], s[j], col, dir);
    }
  }

  /** Any ordered list that holds the users of each key in their input order
      is the list `SortUsers` returns: a stable sort's result is determined by
      the comparator and the input alone. */
  lemma {:induction false} StableSortUnique(users: seq<User>, r: seq<User>, col: Column, dir: Direction)
    requires Ordered(r, col, dir)
    requires forall k :: WithKey(r, col, k) == WithKey(users, col, k)
    ensures r == SortUsers(users, col, dir)
  {
    var s := SortUsers(users, col, dir);
    SameKeyGroupsEqual(r, s, col, dir);
  }

  /** Two ordered lists with the same users under every key are equal. */
  lemma {:induction false} SameKeyGroupsEqual(a: seq<User>, b: seq<User>, col: Column, dir: Direction)
    requires Ordered(a, col, dir) && Ordered(b, col, dir)
    requires forall k :: WithKey(a, col, k) == WithKey(b, col, k)
    ensures a == b
    decreases |a|
  {
    EmptyTogether(a, b, col);
    if a != [] {
      SameHead(a, b, col, dir);
      SameTails(a, b, col);
      SameKeyGroupsEqual(a[1..], b[1..], col, dir);
      assert a == [a[0]] + a[1..] && b == [b[0]] + b[1..];
    }
  }

  /** Two ordered lists with the same key groups start with the same user:
      both heads carry the least key, and each is the first of that group. */
  lemma SameHead(a: seq<User>, b: seq<User>, col: Column, dir: Direction)
    requires a != [] && b != [] && Ordered(a, col, dir) && Ordered(b, col, dir)
    requires forall k :: WithKey(a, col, k) == WithKey(b, col, k)
    ensures a[0] == b[0]
  {
    var ka, kb := SortKey(a[0], col), SortKey(b[0], col);
    InGroup(a, col);
    InGroup(b, col);
    assert a[0] in WithKey(b, col, ka);
    assert b[0] in WithKey(a, col, kb);
    HeadFirst(a, col, dir, b[0]);
    HeadFirst(b, col, dir, a[0]);
    KeyOrderedAntisymmetric(a[0], b[0], col, dir);
    assert a[0] == WithKey(a, col, ka)[0] == WithKey(b, col, ka)[0] == b[0];
  }

  /** Lists with the same key groups are both empty or both non-empty. */
  lemma EmptyTogether(a: seq<User>, b: seq<User>, col: Column)
    requires forall k :: WithKey(a, col, k) == WithKey(b, col, k)
    ensures a == [] <==> b == []
  {
    if a != [] {
      InGroup(a, col);
      assert WithKey(b, col, SortKey(a[0], col)) != [];
    }
    if b != [] {
      InGroup(b, col);
      assert WithKey(a, col, SortKey(b[0], col)) != [];
    }
  }

  /** Every user of `s` is in its own key's group. */
  lemma InGroup(s: seq<User>, col: Column)
    requires s != []
    ensures s[0] in WithKey(s, col, SortKey(s[0], col))
  {
  }

  /** Dropping an equal head keeps every key group equal. */
  lemma SameTails(a: seq<User>, b: seq<User>, col: Column)
    requires a != [] && b != [] && a[0] == b[0]
    requires forall k :: WithKey(a, col, k) == WithKey(b, col, k)
    ensures forall k :: WithKey(a[1..], col, k) == WithKey(b[1..], col, k)
  {
    forall k
      ensures WithKey(a[1..], col, k) == WithKey(b[1..], col, k)
    {
      var ga, gb := WithKey(a, col, k), WithKey(b, col, k);
      assert ga == gb;
      if SortKey(a[0], col) == k {
        assert ga == [a[0]] + WithKey(a[1..], col, k);
        assert gb == [a[0]] + WithKey(b[1..], col, k);
        assert ga[1..] == WithKey(a[1..], col, k);
        assert gb[1..] == WithKey(b[1..], col, k);
      }
    }
  }

  /** The head of an ordered list may stand before each of its members. */
  lemma HeadFirst(s: seq<User>, col: Column, dir: Direction, u: User)
    requires Ordered(s, col, dir) && u in s
    ensures KeyOrdered(s[0], u, col, dir)
  {
    var j :| 0 <= j < |s| && s[j] == u;
    if j > 0 {
      OrderedPairwise(s, col, dir, 0, j);
    } else {
      LexLessIrreflexive(SortKey(u, col));
    }
  }
}
