/**
 Strings as sequences of characters: the substring test the searches use
 (Rust's `str::contains` with a string pattern) and the lower-case fold used
 by the case-insensitive search (Rust's `str::to_lowercase`, restricted here
 to the ASCII letters).
 */
module Text {

  /** True when `q` occurs in `s` as a contiguous run of characters.
      The empty string occurs in every string. */
  function Contains(s: string, q: string): (b: bool)
    ensures q == [] ==> b
    ensures b ==> |q| <= |s|
    decreases |s|
  {
    q <= s || (s != [] && Contains(s[1..], q))
  }

  /** `q` occurs in `s` starting at position `i`. */
  ghost predicate OccursAt(s: string, q: string, i: int)
  {
    0 <= i && i + |q| <= |s| && s[i..i + |q|] == q
  }

  /** The recursive scan agrees with the positional definition of a substring,
      in both directions. */
  lemma {:induction false} ContainsIffOccurs(s: string, q: string)
    ensures Contains(s, q) <==> exists i :: OccursAt(s, q, i)
    decreases |s|
  {
    if s == [] {
      if Contains(s, q) {
        assert OccursAt(s, q, 0);
      }
    } else {
      ContainsIffOccurs(s[1..], q);
      if q <= s {
        assert OccursAt(s, q, 0);
      } else if Contains(s[1..], q) {
        var i :| OccursAt(s[1..], q, i);
        assert s[1..][i..i + |q|] == s[i + 1..i + 1 + |q|];
        assert OccursAt(s, q, i + 1);
      }
      if exists i :: OccursAt(s, q, i) {
        var i :| OccursAt(s, q, i);
        if i == 0 {
          assert q <= s;
        } else {
          assert s[1..][i - 1..i - 1 + |q|] == s[i..i + |q|];
          assert OccursAt(s[1..], q, i - 1);
        }
      }
    }
  }

  /** The empty query occurs in every string. */
  lemma EmptyOccursEverywhere(s: string)
    ensures Contains(s, [])
  {
  }

  /** A string contains whatever is written inside it. */
  lemma {:induction false} ContainsInfix(a: string, q: string, b: string)
    ensures Contains(a + q + b, q)
    decreases |a|
  {
    if a == [] {
      assert a + q + b == q + b;
    } else {
      assert (a + q + b)[1..] == a[1..] + q + b;
      ContainsInfix(a[1..], q, b);
    }
  }

  /** An occurrence of `q` cannot start inside a stretch of text free of the
      first character of `q`. */
  lemma {:induction false} ContainsSkipsStretch(a: string, b: string, q: string)
    requires q != [] && q[0] !in a
    ensures Contains(a + b, q) <==> Contains(b, q)
    decreases |a|
  {
    if a == [] {
      assert a + b == b;
    } else {
      assert (a + b)[0] == a[0] && a[0] in a;
      assert (a + b)[1..] == a[1..] + b;
      assert forall j :: 0 <= j < |a| - 1 ==> a[1..][j] == a[j + 1];
      ContainsSkipsStretch(a[1..], b, q);
    }
  }

  /** An occurrence of `q` cannot start at a character that is not followed
      by the second character of `q`. */
  lemma ContainsSkipsMismatch(c: char, b: string, q: string)
    requires |q| >= 2 && b != [] && b[0] != q[1]
    ensures Contains([c] + b, q) <==> Contains(b, q)
  {
    assert ([c] + b)[1] == b[0];
    assert ([c] + b)[1..] == b;
  }

  /** Text in which the first character of `q` occurs once, and there is
      followed by something other than the second character of `q`, does not
      contain `q`. */
  lemma AbsentButForMismatch(a: string, c: char, b: string, q: string)
    requires |q| >= 2 && q[0] !in a && q[0] !in b && b != [] && b[0] != q[1]
    ensures !Contains(a + [c] + b, q)
  {
    assert a + [c] + b == a + ([c] + b);
    ContainsSkipsStretch(a, [c] + b, q);
    ContainsSkipsMismatch(c, b, q);
    AbsentFirstChar(b, q);
  }

  /** A string without the first character of `q` does not contain `q`. */
  lemma AbsentFirstChar(s: string, q: string)
    requires q != [] && q[0] !in s
    ensures !Contains(s, q)
  {
    ContainsSkipsStretch(s, [], q);
    assert s + [] == s;
  }

  /** An ASCII upper-case letter. */
  predicate IsUpper(c: char)
  {
    'A' <= c <= 'Z'
  }

  /** Folds one character to lower case: `A`..`Z` map to `a`..`z`, everything
      else is left alone. */
  function LowerChar(c: char): (d: char)
    ensures !IsUpper(d)
    ensures !IsUpper(c) ==> d == c
    ensures IsUpper(c) ==> 'a' <= d <= 'z' && d as int - 'a' as int == c as int - 'A' as int
  {
    if IsUpper(c) then (c as int - 'A' as int + 'a' as int) as char else c
  }

  /** Folds a whole string character by character. */
  function Lower(s: string): (r: string)
    ensures |r| == |s|
    ensures forall i :: 0 <= i < |s| ==> r[i] == LowerChar(s[i])
    decreases |s|
  {
    if s == [] then [] else [LowerChar(s[0])] + Lower(s[1..])
  }

  /** Folding twice is folding once. */
  lemma LowerIdempotent(s: string)
    ensures Lower(Lower(s)) == Lower(s)
  {
  }

  /** A string is its own fold exactly when it has no upper-case letter. */
  lemma LowerFixesExactlyUpperFree(s: string)
    ensures Lower(s) == s <==> forall i :: 0 <= i < |s| ==> !IsUpper(s[i])
  {
    if Lower(s) == s {
      forall i | 0 <= i < |s|
        ensures !IsUpper(s[i])
      {
        assert s[i] == Lower(s)[i];
      }
    }
  }

  /** The fold commutes with concatenation. */
  lemma LowerAppend(a: string, b: string)
    ensures Lower(a + b) == Lower(a) + Lower(b)
  {
  }
}
