/**
 The library of the minigrep command: building a `Config` from the command
 line, the two searches and the choice between them. Reading the file and
 printing are left to the caller: the file's contents come in as a string
 and the printed lines go out as a sequence.
 */
module Minigrep {
  import opened Text
  import opened LineSplit
  import opened Filtering

  /** Success with a value, or failure with an error. */
  datatype Result<T, E> = Ok(value: T) | Err(error: E)

  /** What one run searches for, and where. */
  datatype Config = Config(file: string, query: string, caseSensitive: bool)

  /** The one error `NewConfig` reports. */
  const NotEnoughArguments: string := "Not enough arguments."

  /** The argument at `i`, or the empty string when there is none. */
  function ArgOrEmpty(args: seq<string>, i: nat): (r: string)
    ensures r == [] <==> i >= |args| || args[i] == []
    ensures r != [] ==> r == args[i]
  {
    if i < |args| then args[i] else ""
  }

  /** Builds the configuration from the argument vector, program name first:
      the query, the file, and an optional flag that asks for a
      case-sensitive search when it is present and not empty. */
  function NewConfig(args: seq<string>): (r: Result<Config, string>)
    ensures r.Err? <==> |args| < 3
    ensures r.Err? ==> r.error == NotEnoughArguments
    ensures r.Ok? ==> r.value.query == args[1] && r.value.file == args[2]
    ensures r.Ok? ==> (r.value.caseSensitive <==> |args| > 3 && args[3] != "")
  {
    if |args| < 3 then Err(NotEnoughArguments)
    else
      var query := args[1];
      var file := args[2];
      var flag := ArgOrEmpty(args, 3);
      Ok(Config(file, query, flag != ""))
  }

  /** Only the query, the file and whether a non-empty flag follows them
      matter: the program name and anything after the flag are ignored. */
  lemma NewConfigReadsOnlyItsArguments(a: seq<string>, b: seq<string>)
    requires |a| >= 3 && |b| >= 3
    requires a[1] == b[1] && a[2] == b[2]
    requires ArgOrEmpty(a, 3) == ArgOrEmpty(b, 3)
    ensures NewConfig(a) == NewConfig(b)
  {
  }

  /** An empty flag is the same as no flag: the search ignores case. */
  lemma EmptyFlagIsNoFlag(args: seq<string>)
    requires |args| == 3
    ensures NewConfig(args + [""]) == NewConfig(args)
    ensures NewConfig(args).Ok? && !NewConfig(args).value.caseSensitive
  {
  }

  /** The lines of `content` that contain `query`, in order. */
  method Search(query: string, content: string) returns (result: seq<string>)
    ensures result == Select(Lines(content), query, true)
    ensures forall k :: 0 <= k < |result| ==> Contains(result[k], query) && '\n' !in result[k]
    ensures forall l :: l in Lines(content) && Contains(l, query) ==> l in result
    ensures IsSubsequence(result, Lines(content))
  {
    var lines := Lines(content);
    result := [];
    var i := 0;
    while i < |lines|
      invariant 0 <= i <= |lines|
      invariant result == Select(lines[..i], query, true)
    {
      SelectPrefixStep(lines, i, query, true);
      if Contains(lines[i], query) {
        result := result + [lines[i]];
      }
      i := i + 1;
    }
    assert lines[..i] == lines;
    SelectIsSelection(lines, query, true);
    SelectKeepsEveryMatch(lines, query, true);
    SubsequenceElements(result, lines);
  }

  /** The lines of `content` that contain `query` once both are folded to
      lower case, in order and as they appear in `content`. */
  method SearchCaseInsensitive(query: string, content: string) returns (result: seq<string>)
    ensures result == Select(Lines(content), query, false)
    ensures forall k :: 0 <= k < |result| ==> Contains(Lower(result[k]), Lower(query)) && '\n' !in result[k]
    ensures forall l :: l in Lines(content) && Contains(Lower(l), Lower(query)) ==> l in result
    ensures IsSubsequence(result, Lines(content))
  {
    var lines := Lines(content);
    result := [];
    var folded := Lower(query);
    var i := 0;
    while i < |lines|
      invariant 0 <= i <= |lines|
      invariant result == Select(lines[..i], query, false)
    {
      SelectPrefixStep(lines, i, query, false);
      if Contains(Lower(lines[i]), folded) {
        result := result + [lines[i]];
      }
      i := i + 1;
    }
    assert lines[..i] == lines;
    SelectIsSelection(lines, query, false);
    SelectKeepsEveryMatch(lines, query, false);
    SubsequenceElements(result, lines);
  }

  /** The lines one run prints for the file contents `contents`: the
      case-sensitive search when the configuration asks for it, the
      case-insensitive one otherwise. */
  method Run(config: Config, contents: string) returns (output: seq<string>)
    ensures output == Select(Lines(contents), config.query, config.caseSensitive)
    ensures config.caseSensitive ==>
              forall k :: 0 <= k < |output| ==> Contains(output[k], config.query)
    ensures !config.caseSensitive ==>
              forall k :: 0 <= k < |output| ==> Contains(Lower(output[k]), Lower(config.query))
    ensures IsSubsequence(output, Lines(contents))
  {
    if config.caseSensitive {
      output := Search(config.query, contents);
    } else {
      output := SearchCaseInsensitive(config.query, contents);
    }
  }
}
