/**
 The library's unit tests (src/lib.rs, `mod test`) and some example command
 lines, stated as facts about the model. Each test string is a parameter
 fixed by the `requires` rather than a literal in the statement: a literal
 lets the verifier unfold `Contains` and `Lower` over the whole string, which
 is far too costly, while a parameter is only unfolded as far as the proof
 asks.
 */
module Scenarios {
  import opened Text
  import opened LineSplit
  import opened Filtering
  import opened Minigrep

  /** Selecting from three lines, one step at a time. */
  lemma SelectThree(a: string, b: string, c: string, query: string, caseSensitive: bool)
    ensures Select([a, b, c], query, caseSensitive)
         == (if Matches(a, query, caseSensitive) then [a] else [])
          + (if Matches(b, query, caseSensitive) then [b] else [])
          + (if Matches(c, query, caseSensitive) then [c] else [])
  {
    SelectCons(c, [], query, caseSensitive);
    SelectCons(b, [c], query, caseSensitive);
    SelectCons(a, [b, c], query, caseSensitive);
    assert [c] == [c] + [] && [b, c] == [b] + [c] && [a, b, c] == [a] + [b, c];
  }

  /** Three lines, each followed by `\n`. */
  lemma UnlinesThree(a: string, b: string, c: string)
    ensures Unlines([a, b, c]) == a + "\n" + b + "\n" + c + "\n"
  {
    assert [c][1..] == [] && [b, c][1..] == [c] && [a, b, c][1..] == [b, c];
    assert Unlines([c]) == c + "\n";
    assert Unlines([b, c]) == b + "\n" + (c + "\n");
  }

  /** Three terminated lines, then whatever follows. */
  lemma LinesOfThreeThen(a: string, b: string, c: string, tail: string)
    requires PlainLine(a) && PlainLine(b) && PlainLine(c)
    ensures Lines(a + "\n" + b + "\n" + c + "\n" + tail) == [a, b, c] + Lines(tail)
  {
    UnlinesThree(a, b, c);
    LinesAfterUnlines([a, b, c], tail);
  }

  /** The three lines of the poem in the tests; none contains a line break
      or ends in `\r`. */
  lemma PoemLinesArePlain(rust: string, safe: string, pick: string)
    requires rust == "Rust" && safe == "safe, fast, productive." && pick == "Pick three."
    ensures PlainLine(rust) && PlainLine(safe) && PlainLine(pick)
  {
  }

  /** Which poem lines contain `duct`, case counting. */
  lemma PoemDuctMatches(rust: string, safe: string, pick: string, query: string)
    requires rust == "Rust" && safe == "safe, fast, productive." && pick == "Pick three."
    requires query == "duct"
    ensures !Matches(rust, query, true) && Matches(safe, query, true) && !Matches(pick, query, true)
  {
    AbsentFirstChar(rust, query);
    assert safe == "safe, fast, pro" + query + "ive.";
    ContainsInfix("safe, fast, pro", query, "ive.");
    AbsentFirstChar(pick, query);
  }

  /** `one_result`: the final `\n` adds no empty line, and `duct` is found
      in exactly one line. */
  lemma OneResult(rust: string, safe: string, pick: string, content: string)
    requires rust == "Rust" && safe == "safe, fast, productive." && pick == "Pick three."
    requires content == rust + "\n" + safe + "\n" + pick + "\n"
    ensures Lines(content) == [rust, safe, pick]
    ensures Select(Lines(content), "duct", true) == [safe]
  {
    PoemLinesArePlain(rust, safe, pick);
    LinesOfThreeThen(rust, safe, pick, []);
    assert content == rust + "\n" + safe + "\n" + pick + "\n" + [];
    PoemDuctMatches(rust, safe, pick, "duct");
    SelectThree(rust, safe, pick, "duct", true);
  }

  /** `case_sensitive`: the last line has no terminator and is still a line;
      `Duct tape` does not match `duct` because case matters. */
  lemma CaseSensitive(rust: string, safe: string, pick: string, duct: string, content: string)
    requires rust == "Rust" && safe == "safe, fast, productive." && pick == "Pick three."
    requires duct == "Duct tape"
    requires content == rust + "\n" + safe + "\n" + pick + "\n" + duct
    ensures Lines(content) == [rust, safe, pick, duct]
    ensures Select(Lines(content), "duct", true) == [safe]
  {
    PoemLinesArePlain(rust, safe, pick);
    LinesOfThreeThen(rust, safe, pick, duct);
    SingleLine(duct);
    assert [rust, safe, pick] + [duct] == [rust, safe, pick, duct];
    PoemDuctMatches(rust, safe, pick, "duct");
    AbsentFirstChar(duct, "duct");
    SelectThree(rust, safe, pick, "duct", true);
    SelectSnoc([rust, safe, pick], duct, "duct", true);
  }

  /** A stretch folds free of the lower-case letter `lo` when it holds neither
      `lo` nor its upper-case form `up`. */
  lemma FoldedLacks(a: string, lo: char, up: char)
    requires IsUpper(up) && LowerChar(up) == lo
    requires lo !in a && up !in a
    ensures lo !in Lower(a)
  {
    forall k | 0 <= k < |a|
      ensures Lower(a)[k] != lo
    {
      assert a[k] in a;
    }
  }

  /** Folded, `a + b + c` contains the fold of `q` when `b` folds like `q`. */
  lemma FoldedInfix(s: string, a: string, b: string, c: string, q: string)
    requires s == a + b + c && Lower(b) == Lower(q)
    ensures Contains(Lower(s), Lower(q))
  {
    LowerAppend(a + b, c);
    LowerAppend(a, b);
    ContainsInfix(Lower(a), Lower(b), Lower(c));
  }

  /** Folded, `a + [c] + b` does not contain the folded query `f` when the
      first letter of `f` occurs, in either case, only at `c`, and is there
      followed by something that does not fold to the second letter. */
  lemma FoldedMissesAtMismatch(s: string, a: string, c: char, b: string, f: string, up: char)
    requires s == a + [c] + b && |f| >= 2 && b != []
    requires IsUpper(up) && LowerChar(up) == f[0]
    requires f[0] !in a && up !in a && f[0] !in b && up !in b
    requires LowerChar(b[0]) != f[1]
    ensures !Contains(Lower(s), f)
  {
    FoldedLacks(a, f[0], up);
    FoldedLacks(b, f[0], up);
    LowerAppend(a + [c], b);
    LowerAppend(a, [c]);
    assert Lower([c]) == [LowerChar(c)];
    assert Lower(s) == Lower(a) + [LowerChar(c)] + Lower(b);
    assert Lower(b)[0] == LowerChar(b[0]);
    AbsentButForMismatch(Lower(a), LowerChar(c), Lower(b), f);
  }

  /** The query of the `case_insensitive` test, folded. */
  lemma FoldedQuery(query: string)
    requires query == "rUsT"
    ensures Lower(query) == "rust"
  {
  }

  /** `Rust` matches `rUsT` once both are folded. */
  lemma RustMatchesFolded(rust: string, query: string)
    requires rust == "Rust" && query == "rUsT"
    ensures Matches(rust, query, false)
  {
    assert Lower(rust) == "rust";
    FoldedQuery(query);
    FoldedInfix(rust, [], rust, [], query);
  }

  /** `Trust me.` matches `rUsT` once both are folded. */
  lemma TrustMatchesFolded(trust: string, query: string)
    requires trust == "Trust me." && query == "rUsT"
    ensures Matches(trust, query, false)
  {
    assert Lower("rust") == "rust";
    FoldedQuery(query);
    FoldedInfix(trust, "T", "rust", " me.", query);
  }

  /** `safe, fast, productive.` does not match `rUsT`, folded or not: its
      only `r` is followed by `o`. */
  lemma SafeMissesFolded(safe: string, query: string)
    requires safe == "safe, fast, productive." && query == "rUsT"
    ensures !Matches(safe, query, false)
  {
    FoldedMissesAtMismatch(safe, "safe, fast, p", 'r', "oductive.", "rust", 'R');
    FoldedQuery(query);
  }

  /** `Pick three.` does not match `rUsT` once folded: its only `r` is
      followed by `e`. */
  lemma PickMissesFolded(pick: string, query: string)
    requires pick == "Pick three." && query == "rUsT"
    ensures !Matches(pick, query, false)
  {
    FoldedMissesAtMismatch(pick, "Pick th", 'r', "ee.", "rust", 'R');
    FoldedQuery(query);
  }

  /** `Duct tape` has no `r` in either case. */
  lemma DuctMissesFolded(duct: string, query: string)
    requires duct == "Duct tape" && query == "rUsT"
    ensures !Matches(duct, query, false)
  {
    FoldedLacks(duct, 'r', 'R');
    AbsentFirstChar(Lower(duct), "rust");
    FoldedQuery(query);
  }

  /** The contents of the `case_insensitive` test split into its five lines. */
  lemma FiveLines(rust: string, safe: string, pick: string, trust: string, duct: string, content: string)
    requires rust == "Rust" && safe == "safe, fast, productive." && pick == "Pick three."
    requires trust == "Trust me." && duct == "Duct tape"
    requires content == rust + "\n" + safe + "\n" + pick + "\n" + trust + "\n" + duct
    ensures Lines(content) == [rust, safe, pick] + [trust] + [duct]
  {
    PoemLinesArePlain(rust, safe, pick);
    assert content == rust + "\n" + safe + "\n" + pick + "\n" + (trust + "\n" + duct);
    LinesOfThreeThen(rust, safe, pick, trust + "\n" + duct);
    LinesAfterLine(trust, duct);
    SingleLine(duct);
  }

  /** `case_insensitive`: with the query `rUsT`, the lines `Rust` and
      `Trust me.` match once folded, and are returned as written. */
  lemma CaseInsensitive(rust: string, safe: string, pick: string, trust: string, duct: string, content: string)
    requires rust == "Rust" && safe == "safe, fast, productive." && pick == "Pick three."
    requires trust == "Trust me." && duct == "Duct tape"
    requires content == rust + "\n" + safe + "\n" + pick + "\n" + trust + "\n" + duct
    ensures Lines(content) == [rust, safe, pick, trust, duct]
    ensures Select(Lines(content), "rUsT", false) == [rust, trust]
  {
    var first := [rust, safe, pick];
    FiveLines(rust, safe, pick, trust, duct, content);
    assert first + [trust] + [duct] == [rust, safe, pick, trust, duct];
    RustMatchesFolded(rust, "rUsT");
    SafeMissesFolded(safe, "rUsT");
    PickMissesFolded(pick, "rUsT");
    TrustMatchesFolded(trust, "rUsT");
    DuctMissesFolded(duct, "rUsT");
    SelectThree(rust, safe, pick, "rUsT", false);
    SelectSnoc(first, trust, "rUsT", false);
    SelectSnoc(first + [trust], duct, "rUsT", false);
  }

  /** Example command lines: too few arguments, no flag,
      a non-empty flag, and an empty flag, which does not ask for case. */
  lemma ConfigExamples()
    ensures NewConfig(["minigrep"]) == Err("Not enough arguments.")
    ensures NewConfig(["minigrep", "duct"]) == Err("Not enough arguments.")
    ensures NewConfig(["minigrep", "duct", "poem.txt"]) == Ok(Config("poem.txt", "duct", false))
    ensures NewConfig(["minigrep", "duct", "poem.txt", "1"]) == Ok(Config("poem.txt", "duct", true))
    ensures NewConfig(["minigrep", "duct", "poem.txt", ""]) == Ok(Config("poem.txt", "duct", false))
  {
  }
}
