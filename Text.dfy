/** String operations the list view relies on, written out over `seq<char>`:
    `toLowerCase` (ASCII letters only), `includes` (substring search) and the
    relational `<` of JavaScript strings (lexicographic over characters). */
module Text {

  /** Lower-cases one ASCII letter; every other character is left alone. */
  function LowerChar(c: char): (r: char)
    ensures !('A' <= r <= 'Z')
    ensures ('A' <= c <= 'Z') == (r != c)
  {
    if 'A' <= c <= 'Z' then (c as int - 'A' as int + 'a' as int) as char else c
  }

  /** `s.toLowerCase()`, restricted to ASCII. */
  function Lower(s: string): (r: string)
    ensures |r| == |s|
    ensures forall i :: 0 <= i < |s| ==> r[i] == LowerChar(s[i])
  {
    if s == [] then [] else [LowerChar(s[0])] + Lower(s[1..])
  }

  /** Lower-casing twice is lower-casing once. */
  lemma LowerIdempotent(s: string)
    ensures Lower(Lower(s)) == Lower(s)
  {
  }

  /** `n` occurs in `h` starting at position `i`. */
  predicate OccursAt(h: string, n: string, i: int)
  {
    0 <= i && i + |n| <= |h| && h[i..i + |n|] == n
  }

  /** `h.startsWith(n)` */
  predicate StartsWith(h: string, n: string)
  {
    |n| <= |h| && h[..|n|] == n
  }

  /** `h.includes(n)`: scan the start positions of `h` from the left. */
  predicate Includes(h: string, n: string)
    ensures Includes(h, n) ==> |n| <= |h|
    decreases |h|
  {
    StartsWith(h, n) || (|h| > 0 && Includes(h[1..], n))
  }

  /** The scan agrees with the textbook definition of a substring: some
      position of `h` is the start of an occurrence of `n`. */
  lemma IncludesIff(h: string, n: string)
    ensures Includes(h, n) <==> exists i :: OccursAt(h, n, i)
  {
    if Includes(h, n) {
      var i := IncludesWitness(h, n);
    }
    if exists i :: OccursAt(h, n, i) {
      var i :| OccursAt(h, n, i);
      OccursIncludes(h, n, i);
    }
  }

  /** A successful scan names the position where the occurrence starts. */
  lemma {:induction false} IncludesWitness(h: string, n: string) returns (i: int)
    requires Includes(h, n)
    ensures OccursAt(h, n, i)
    decreases |h|
  {
    if StartsWith(h, n) {
      i := 0;
    } else {
      var j := IncludesWitness(h[1..], n);
      assert h[1..][j..j + |n|] == h[j + 1..j + 1 + |n|];
      i := j + 1;
    }
  }

  /** Every occurrence is found by the scan. */
  lemma {:induction false} OccursIncludes(h: string, n: string, i: int)
    requires OccursAt(h, n, i)
    ensures Includes(h, n)
    decreases i
  {
    if i > 0 {
      assert h[1..][i - 1..i - 1 + |n|] == h[i..i + |n|];
      OccursIncludes(h[1..], n, i - 1);
    } else {
      assert h[..|n|] == h[i..i + |n|];
    }
  }

  /** Every string includes the empty string. */
  lemma IncludesEmpty(h: string)
    ensures Includes(h, "")
  {
  }

  /** JavaScript `a < b` on strings: compare character by character; at the
      first difference the smaller character wins, and a proper prefix is
      smaller than the longer string. */
  predicate LexLess(a: string, b: string)
    ensures LexLess(a, b) ==> a != b
    decreases |a|
  {
    if |a| == 0 then |b| > 0
    else if |b| == 0 then false
    else if a[0] != b[0] then a[0] < b[0]
    else LexLess(a[1..], b[1..])
  }

  lemma {:induction false} LexLessIrreflexive(a: string)
    ensures !LexLess(a, a)
    decreases |a|
  {
    if |a| > 0 {
      LexLessIrreflexive(a[1..]);
    }
  }

  lemma {:induction false} LexLessTransitive(a: string, b: string, c: string)
    requires LexLess(a, b) && LexLess(b, c)
    ensures LexLess(a, c)
    decreases |a|
  {
    if |a| > 0 && a[0] == b[0] && b[0] == c[0] {
      LexLessTransitive(a[1..], b[1..], c[1..]);
    }
  }

  /** `<` on strings is a strict total order: exactly one of `a < b`,
      `a == b`, `b < a` holds. */
  lemma {:induction false} LexTrichotomy(a: string, b: string)
    ensures LexLess(a, b) || a == b || LexLess(b, a)
    ensures !(LexLess(a, b) && LexLess(b, a))
    decreases |a|
  {
    if |a| > 0 && |b| > 0 && a[0] == b[0] {
      LexTrichotomy(a[1..], b[1..]);
      assert a == [a[0]] + a[1..] && b == [b[0]] + b[1..];
    }
  }
}
