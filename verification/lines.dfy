/**
 Splitting text into lines the way Rust's `str::lines` does: a line ends at
 `\n`, a `\r` immediately before that `\n` is dropped with it, the last line
 needs no terminator, and a terminator at the very end does not start an
 empty extra line.
 */
module LineSplit {

  /** Index of the first `\n` in `s`, or `|s|` when there is none. */
  function NextBreak(s: string): (i: nat)
    ensures i <= |s|
    ensures forall k :: 0 <= k < i ==> s[k] != '\n'
    ensures i < |s| ==> s[i] == '\n'
    decreases |s|
  {
    if s == [] || s[0] == '\n' then 0 else 1 + NextBreak(s[1..])
  }

  /** Removes one `\r` from the end of a line that was terminated by `\n`. */
  function StripCr(line: string): (r: string)
    ensures r <= line
    ensures |line| - 1 <= |r|
    ensures |r| < |line| <==> line != [] && line[|line| - 1] == '\r'
  {
    if line != [] && line[|line| - 1] == '\r' then line[..|line| - 1] else line
  }

  /** The lines of `s`, in order. */
  function Lines(s: string): (ls: seq<string>)
    ensures forall k :: 0 <= k < |ls| ==> '\n' !in ls[k]
    ensures |ls| <= |s|
    decreases |s|
  {
    if s == [] then []
    else
      var i := NextBreak(s);
      if i == |s| then [s]
      else
        assert '\n' !in s[..i] by {
          forall k | 0 <= k < i ensures s[..i][k] != '\n' { }
        }
        [StripCr(s[..i])] + Lines(s[i + 1..])
  }

  /** Content written as each line followed by `\n`. */
  function Unlines(ls: seq<string>): string
  {
    if ls == [] then [] else ls[0] + "\n" + Unlines(ls[1..])
  }

  /** Content written as each line followed by `\r\n`. */
  function UnlinesCrlf(ls: seq<string>): string
  {
    if ls == [] then [] else ls[0] + "\r\n" + UnlinesCrlf(ls[1..])
  }

  /** A line that `Lines` can return unchanged after a `\n` terminator. */
  predicate PlainLine(l: string)
  {
    '\n' !in l && (l == [] || l[|l| - 1] != '\r')
  }

  /** Splitting the line found before the first `\n` of `l + t`, when `l` has none. */
  lemma BreakAfterLine(l: string, t: string)
    requires '\n' !in l
    requires t != [] && t[0] == '\n'
    ensures NextBreak(l + t) == |l|
  {
    var s := l + t;
    assert forall k :: 0 <= k < |l| ==> s[k] == l[k];
    assert s[|l|] == '\n';
  }

  /** A plain line followed by `\n` is split off the front of the text. */
  lemma LinesAfterLine(l: string, rest: string)
    requires PlainLine(l)
    ensures Lines(l + "\n" + rest) == [l] + Lines(rest)
  {
    var s := l + "\n" + rest;
    assert s == l + ("\n" + rest);
    BreakAfterLine(l, "\n" + rest);
    assert s[..|l|] == l;
    assert s[|l| + 1..] == rest;
  }

  /** The first line of `\n`-terminated lines, then everything after it. */
  lemma UnlinesThen(ls: seq<string>, tail: string)
    requires ls != []
    ensures Unlines(ls) + tail == ls[0] + "\n" + (Unlines(ls[1..]) + tail)
  {
  }

  /** Rebuilding a non-empty sequence from its head and the rest. */
  lemma HeadThenRest<T>(s: seq<T>, t: seq<T>)
    requires s != []
    ensures [s[0]] + (s[1..] + t) == s + t
  {
    assert s == [s[0]] + s[1..];
  }

  /** Text that starts with `\n`-terminated lines splits into those lines
      followed by the lines of the rest. */
  lemma {:induction false} LinesAfterUnlines(ls: seq<string>, tail: string)
    requires forall k :: 0 <= k < |ls| ==> PlainLine(ls[k])
    ensures Lines(Unlines(ls) + tail) == ls + Lines(tail)
    decreases |ls|
  {
    if ls == [] {
      assert Unlines(ls) + tail == tail;
    } else {
      var rest := Unlines(ls[1..]) + tail;
      var after := Lines(tail);
      assert Lines(Unlines(ls) + tail) == [ls[0]] + Lines(rest) by {
        UnlinesThen(ls, tail);
        LinesAfterLine(ls[0], rest);
      }
      assert Lines(rest) == ls[1..] + after by {
        LinesAfterUnlines(ls[1..], tail);
      }
      HeadThenRest(ls, after);
    }
  }

  /** Splitting `\n`-terminated lines gives them back. */
  lemma LinesUnlines(ls: seq<string>)
    requires forall k :: 0 <= k < |ls| ==> PlainLine(ls[k])
    ensures Lines(Unlines(ls)) == ls
  {
    LinesAfterUnlines(ls, []);
    assert Unlines(ls) + [] == Unlines(ls);
  }

  /** Non-empty text without a `\n` is one line, kept whole, even when it ends
      in `\r`. */
  lemma SingleLine(s: string)
    requires s != [] && '\n' !in s
    ensures Lines(s) == [s]
  {
    assert forall k :: 0 <= k < |s| ==> s[k] != '\n';
  }

  /** A line without `\n` followed by `\r\n` is split off the front of the
      text, the `\r` going with the terminator; the line itself may even end
      in `\r`, since only one is taken. */
  lemma LinesAfterCrlfLine(l: string, rest: string)
    requires '\n' !in l
    ensures Lines(l + "\r\n" + rest) == [l] + Lines(rest)
  {
    var s := l + "\r\n" + rest;
    assert s == (l + "\r") + ("\n" + rest);
    BreakAfterLine(l + "\r", "\n" + rest);
    assert s[..|l| + 1] == l + "\r";
    assert StripCr(l + "\r") == l;
    assert s[|l| + 2..] == rest;
  }

  /** A `\r\n`-terminated line followed by an unterminated one: the lines of
      a file whose last line has no terminator. */
  lemma CrlfThenUnterminated(a: string, b: string)
    requires '\n' !in a && '\n' !in b && b != []
    ensures Lines(a + "\r\n" + b) == [a, b]
  {
    LinesAfterCrlfLine(a, b);
    SingleLine(b);
  }

  /** Splitting `\r\n`-terminated lines gives them back; here a line may even
      end in `\r` itself, since only one `\r` is taken with the terminator. */
  lemma {:induction false} LinesUnlinesCrlf(ls: seq<string>)
    requires forall k :: 0 <= k < |ls| ==> '\n' !in ls[k]
    ensures Lines(UnlinesCrlf(ls)) == ls
    decreases |ls|
  {
    if ls != [] {
      LinesAfterCrlfLine(ls[0], UnlinesCrlf(ls[1..]));
      LinesUnlinesCrlf(ls[1..]);
    }
  }

  /** A `\n` placed after the content does not move an earlier break. */
  lemma NextBreakAppend(s: string, t: string)
    requires NextBreak(s) < |s|
    ensures NextBreak(s + t) == NextBreak(s)
  {
    var i := NextBreak(s);
    var j := NextBreak(s + t);
    assert (s + t)[i] == s[i];
    if j < i {
      assert (s + t)[j] == s[j];
    }
  }

  /** A final `\n` does not add an empty last line: terminating the last line
      leaves the lines as they were, unless that line ends in `\r` (which the
      terminator then takes with it) or is already terminated. */
  lemma {:induction false} TrailingNewlineAddsNoLine(s: string)
    requires s != [] && s[|s| - 1] != '\n' && s[|s| - 1] != '\r'
    ensures Lines(s + "\n") == Lines(s)
    decreases |s|
  {
    var i := NextBreak(s);
    if i == |s| {
      assert '\n' !in s by {
        forall k | 0 <= k < |s| ensures s[k] != '\n' { }
      }
      BreakAfterLine(s, "\n");
      assert (s + "\n")[..|s|] == s;
      assert (s + "\n")[|s| + 1..] == [];
    } else {
      NextBreakAppend(s, "\n");
      assert i < |s| - 1;
      var tail := s[i + 1..];
      assert (s + "\n")[..i] == s[..i];
      assert (s + "\n")[i + 1..] == tail + "\n";
      assert tail[|tail| - 1] == s[|s| - 1];
      TrailingNewlineAddsNoLine(tail);
    }
  }
}
