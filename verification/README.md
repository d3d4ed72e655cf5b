# minigrep, modelled in Dafny

minigrep is a small command-line search tool: `minigrep QUERY FILE [FLAG]`
prints every line of FILE that contains QUERY. A non-empty FLAG makes the
search case-sensitive. Without one, the query and each line are folded to
lower case before they are compared. This project models the library behind
the command (`src/lib.rs`) and proves properties of the model:

- building a `Config` from the argument vector (`Config::new`);
- splitting the file contents into lines the way Rust's `str::lines` does
  in current releases (split after each `\n`, drop the `\n`, then drop one
  `\r` before it; a `\r` at the end of an unterminated last line is kept,
  which older releases dropped as well);
- the case-sensitive `search` and the case-insensitive
  `search_case_insensitive`;
- the choice between the two searches that `run` makes.

Modules:

- `Text` (`text.dfy`): the substring test (`str::contains`) and the
  lower-case fold (`to_lowercase`).
- `LineSplit` (`lines.dfy`): `Lines`, the model of `str::lines`, with its
  inverses `Unlines` (lines terminated by `\n`) and `UnlinesCrlf` (lines
  terminated by `\r\n`).
- `Filtering` (`filtering.dfy`): `Select`, the in-order filter both searches
  compute, and `IsSelection`, an independent description of what such a
  filter must return.
- `Minigrep` (`minigrep.dfy`): `Config`, `NewConfig`, the two searches
  (written as loops, as `search` and
  `search_case_insensitive` are in `src/lib.rs`) and `Run`.
- `Scenarios` (`scenarios.dfy`): the crate's three unit tests and some
  example command lines, stated as lemmas.

Three points of the code's behaviour that the model keeps:

- A fourth argument turns on case-sensitive search only when it is
  non-empty. An empty fourth argument gives a case-insensitive search
  (`src/lib.rs:31-32`).
- There is a single error, `"Not enough arguments."`, for fewer than three
  arguments (`src/lib.rs:26-27`).
- The query may be empty, and then every line matches: nothing in
  `src/lib.rs` rejects an empty query.

## Model

| member | source | states |
|---|---|---|
| `Minigrep.Config` | src/lib.rs:4-9 | A configuration holds the file, the query and the case-sensitivity flag. |
| `Minigrep.ArgOrEmpty` | src/lib.rs:31 | The optional argument at a position: empty exactly when it is missing or is itself empty, and otherwise that argument. |
| `Minigrep.NewConfig` | src/lib.rs:25-38 | Fails exactly when there are fewer than three arguments, and then always with `"Not enough arguments."`. Otherwise the query is `args[1]` and the file is `args[2]`, both verbatim. The search is case-sensitive exactly when a fourth argument exists and is non-empty. |
| `Minigrep.NewConfigReadsOnlyItsArguments` | src/lib.rs:29-31 | Two argument vectors that agree on the query, the file and the flag (a missing flag counts as an empty one) give the same result. The program name and any arguments after the flag are ignored. |
| `Minigrep.EmptyFlagIsNoFlag` | src/lib.rs:31-32 | Appending an empty fourth argument changes nothing: the search still ignores case. |
| `Minigrep.Search` | src/lib.rs:41-49 | Returns the in-order filter of the lines of the contents by substring match. Every returned line contains the query and has no line break. No line that contains the query is missing. The result is a subsequence of the lines. |
| `Minigrep.SearchCaseInsensitive` | src/lib.rs:51-60 | Folds the query once and returns the original, unfolded lines whose fold contains the folded query, in order. No such line is missing, and the result is a subsequence of the lines. |
| `Minigrep.Run` | src/lib.rs:13-19 | The printed lines are exactly the case-sensitive search result when the configuration asks for case, and the case-insensitive one otherwise, in order, each matching in its mode. |
| `Filtering.Matches` | src/lib.rs:44 | The per-line test of either search. An empty query matches every line, and a line can match only a query no longer than itself. |
| `Filtering.Select` | src/lib.rs:42-48 | What the loops of both searches compute. Its result is never longer than the lines, and each of its elements is one of the lines. What it keeps is fixed by the two lemmas below. |
| `Filtering.SelectIsSelection` | src/lib.rs:42-48 | The filter both searches compute keeps lines in order, keeps only matching lines, and keeps every matching line as often as it occurs. |
| `Filtering.SelectKeepsEveryMatch` | src/lib.rs:43-46 | No matching line is dropped: every line that matches is in the result. |
| `Filtering.SelectionIsUnique` | src/lib.rs:42-48 | Conversely, any sequence with those three properties is the filter. The properties determine the search result completely. |
| `Filtering.SelectCons` | src/lib.rs:43-46 | The first line is kept in front of the selection from the rest when it matches, and dropped otherwise. |
| `Filtering.SelectSnoc` | src/lib.rs:43-46 | One more line at the end adds that line to the result when it matches and nothing otherwise. This is one step of the search loop. |
| `Filtering.EmptyQuerySelectsAll` | src/lib.rs:44 | An empty query matches every line in either mode, so the search returns all lines of the contents. |
| `Filtering.FoldedQueryDecides` | src/lib.rs:53-55 | Ignoring case, two queries with the same fold (such as `rUsT` and `rust`) select the same lines. |
| `LineSplit.Lines` | src/lib.rs:43 | No line contains `\n`, and there are never more lines than characters. In particular, empty contents have no lines. |
| `LineSplit.StripCr` | src/lib.rs:43 | Only a single `\r` at the very end of a terminated line is dropped; the rest of the line is kept as a prefix. |
| `LineSplit.LinesUnlines` | src/lib.rs:43 | Lines with no line break and no final `\r`, each followed by `\n`, split back into exactly those lines. A final terminator does not add an empty line. |
| `LineSplit.LinesUnlinesCrlf` | src/lib.rs:54 | Lines with no `\n`, each followed by `\r\n`, split back into exactly those lines. Only one `\r` goes with each terminator. |
| `LineSplit.LinesAfterCrlfLine` | src/lib.rs:43 | A line without `\n` followed by `\r\n` comes out first, without the `\r`, followed by the lines of whatever follows; this holds in mixed `\n`/`\r\n` text too. |
| `LineSplit.CrlfThenUnterminated` | src/lib.rs:54 | A `\r\n`-terminated line followed by a last line without terminator gives exactly those two lines. |
| `LineSplit.LinesAfterUnlines` | src/lib.rs:43 | Terminated lines at the front of the text come out first, followed by the lines of whatever follows them. |
| `LineSplit.SingleLine` | src/lib.rs:43 | Non-empty text without `\n` is one line, kept whole even when it ends in `\r`. |
| `LineSplit.TrailingNewlineAddsNoLine` | src/lib.rs:43 | Adding `\n` after unterminated contents leaves the lines unchanged. This holds unless the last line ends in `\r`, which the terminator would take with it. |
| `Text.Contains` | src/lib.rs:44 | The substring test of `str::contains`. The empty query is in every string, and a query is in a string only if it is no longer than it. |
| `Text.ContainsIffOccurs` | src/lib.rs:44 | The recursive substring test holds exactly when the query occurs at some position of the line, in both directions. |
| `Text.ContainsInfix` | src/lib.rs:44 | A line contains whatever text is written inside it. |
| `Text.AbsentFirstChar` | src/lib.rs:44 | A line without the query's first character does not contain the query. |
| `Text.LowerChar` | src/lib.rs:55 | Folding a character never yields an upper-case letter. It leaves every character other than `A`..`Z` alone and maps each upper-case letter to the lower-case letter at the same alphabet position. |
| `Text.Lower` | src/lib.rs:53 | The fold of a string has the same length and folds it character by character. |
| `Text.LowerFixesExactlyUpperFree` | src/lib.rs:55 | A string is its own fold exactly when it has no upper-case letter. |
| `Text.LowerAppend` | src/lib.rs:55 | Folding commutes with concatenation. |
| `Text.LowerIdempotent` | src/lib.rs:53 | Folding an already folded string changes nothing. |
| `Scenarios.OneResult` | src/lib.rs:66-76 | The test poem with a trailing `\n` has exactly its three lines, and `duct` selects only `safe, fast, productive.`. |
| `Scenarios.CaseSensitive` | src/lib.rs:78-87 | With the unterminated last line `Duct tape`, there are four lines, and the case-sensitive `duct` still selects only `safe, fast, productive.`. |
| `Scenarios.CaseInsensitive` | src/lib.rs:89-101 | The five-line text splits into its five lines, and the case-insensitive `rUsT` selects `Rust` and `Trust me.`, as written. |
| `Scenarios.ConfigExamples` | src/lib.rs:25-38 | With one or two arguments the result is the error. With three arguments the search is case-insensitive. A fourth argument `1` makes it case-sensitive, and an empty fourth argument does not. |

## Left out

- Reading the file (`fs::read_to_string`, `src/lib.rs:12`), its I/O errors and their propagation as `Box<dyn Error>`. `Run` takes the file contents as a string parameter, and `Config.file` is only carried along.
- Printing (`println!`, `src/lib.rs:19`). `Run` returns the lines it would print, in order.
- Text.LowerChar: models only the ASCII part of Rust's Unicode `to_lowercase`, mapping `A`..`Z` to `a`..`z`. The full mapping can expand one character into several and depends on context (final sigma). That needs Unicode tables that are outside this model.
- Text.Lower: inherits the ASCII-only fold of `Text.LowerChar`, so it keeps the length and works character by character, which Rust's fold does not always do. The model does not claim that the case-sensitive matches are a subset of the case-insensitive ones.
- Text.LowerAppend: holds for the ASCII fold only. Under Rust's final-sigma rule `"ΑΣ"` folds to `"ας"`, not to `"α"` followed by `"σ"`. The lemma is used only to evaluate the ASCII test strings.
- Text.LowerFixesExactlyUpperFree: holds for the ASCII fold only. Rust also changes strings without `A`..`Z`, for example `"É"` becomes `"é"`.
- Filtering.Matches: the length bound in the case-insensitive mode relies on the ASCII fold keeping lengths.
- Byte offsets, UTF-8 encoding and the borrowed `&'a str` slices. Strings are sequences of characters, and a returned line is equal to an element of `Lines(content)` rather than a view into the contents.
- `#[derive(Debug)]` on `Config`, and the `#[cfg(test)]` module as code. The assertions of its three tests are stated as the lemmas in `Scenarios`.
