# search_logs.py in Dafny

`search_logs.py` searches a directory tree for a term, case-insensitively, by default `may-britt moser`. This project models its computational core once the filesystem and the console are taken away:

- **Text** gives the Python string operations the script relies on:
  - `str.lower`, restricted to ASCII letters;
  - `str.isspace`, with Python's full set of whitespace characters;
  - `str.strip`, the `in` substring test and `''.join`.
- **Scanner** models `search_in_file`:
  - a file is the list `readlines` returns, each line keeping its newline, or is unreadable;
  - the scan is a `for` loop over the lines;
  - it appends one record (1-based line number, stripped line, stripped context) for every line whose lowercased text contains the lowercased term;
  - the context is the `''`-join of the line with its neighbours.
- **Walker** models `search_directory`:
  - the recursive listing is an input sequence of entries (path, is-a-file, suffix, file contents);
  - the loop filters entries by extension, counts the files searched, scans each one, and stores the non-empty scans in an insertion-ordered dictionary.
- **Cli** covers the computing parts of `main`:
  - normalising `--ext` values;
  - how `--ext` and `--all` select the extension list;
  - truncating a displayed line to 100 characters.

Both loops are `method`s proved against specification functions:
- `SearchInFile` against `ScanFile`, whose loop-shaped definition `ScanUpTo` is tied to the list of matching lines by `ScanUpToRecordsHits`;
- `SearchDirectory` against `Candidates` and `Collect`.

The lemmas state what those functions guarantee.

The model follows the code wherever a plain reading of the script's help text would suggest otherwise:
- `--all` changes nothing. It leaves `extensions` as `None`, and `search_directory` then applies the seven default extensions (`AllFlagIsInert`, `AllFlagKeepsDefaultFilter`).
- An empty `--ext` list behaves as if the option were absent.
- `--ext` values are not lowercased but are compared with a lowercased suffix. A value holding a capital letter therefore never matches (`UpperCaseExtensionNeverMatches`).
- When the root directory does not exist, only "Directory not found" is printed and no "Searched N files" line. `SearchDirectory` returns `searched == None` in that case.
- The test is made on the unstripped line, but the record keeps the stripped line. A term with whitespace at its edge can therefore match a line whose record no longer contains it (`EdgeSpaceTermLostByStrip`). With a term that has no edge whitespace, the record's line always contains it (`RecordLineKeepsTerm`).

## Model

| member | source | states |
|---|---|---|
| Text.Contains | search_logs.py:19 | `p in s` holds exactly when `p` occurs in `s` at some index |
| Text.ConcatContainsPart | search_logs.py:23 | `''.join` keeps every part, at the offset given by the parts before it |
| Text.StripUnique | search_logs.py:23 | `strip()` returns exactly the text between the leading and the trailing whitespace |
| Text.StripEdges | search_logs.py:26 | a stripped string neither starts nor ends with whitespace |
| Text.OccurrenceSurvivesStrip | search_logs.py:26 | an occurrence of a term without edge whitespace survives stripping |
| Text.StrippedPartInStrippedJoin | search_logs.py:23 | each stripped part occurs in the stripped join of all the parts |
| Text.StripLower | search_logs.py:19-26 | lowercasing and stripping commute |
| Text.LowerHasNoUpper | search_logs.py:50 | a lowercased string holds no capital letter |
| Scanner.Window | search_logs.py:21-22 | the context slice always holds line `i`, spans 1 to 3 lines, and spans 3 exactly when line `i` has a neighbour on both sides |
| Scanner.HitsUpToSpec | search_logs.py:18-19 | the matching line indices are listed exactly once each, in increasing order, and only matching lines are listed |
| Scanner.ScanUpToRecordsHits | search_logs.py:18-28 | the records appended after `n` lines are, in order, the records of exactly the matching lines among them |
| Scanner.SearchInFile | search_logs.py:14-31 | the loop returns `ScanFile`: the records of the matching lines, or nothing for an unreadable file |
| Scanner.ScanFindsHits | search_logs.py:18-24 | a line has a record exactly when the lowercased term occurs in the lowercased line |
| Scanner.ScanRecordsLines | search_logs.py:24-28 | every record has a line number in `1..len(lines)` and carries that line stripped and its window's context |
| Scanner.ScanInFileOrder | search_logs.py:18-25 | record line numbers strictly increase |
| Scanner.EmptyTermMatchesEveryLine | search_logs.py:19 | the empty term yields one record per line, in order |
| Scanner.RecordLineInContext | search_logs.py:21-26 | a record's stripped line occurs in its stripped context |
| Scanner.RecordLineKeepsTerm | search_logs.py:19-26 | for a term without edge whitespace, the stripped line still contains the term, ignoring case |
| Scanner.EdgeSpaceTermLostByStrip | search_logs.py:19-26 | the term `moser ` matches the line `Moser \n`, but the record keeps only `Moser`, which lacks the term |
| Scanner.StripFinalNewline | search_logs.py:26 | stripping a line whose only edge whitespace is its final newline removes just that newline |
| Scanner.ShortLineMisses | search_logs.py:19 | a line shorter than the term never matches |
| Scanner.MatchAtLineStart | search_logs.py:19 | a line that begins with the term, ignoring case, matches |
| Scanner.MiddleLineRecord | search_logs.py:21-28 | the record for a middle line has number 2, the line without its newline, and all three lines as context |
| Scanner.MiddleLineMatch | search_logs.py:18-28 | a three-line file with the default term on line 2 yields exactly that one record |
| Walker.Put | search_logs.py:56 | `results[key] = value` maps the key to the value; a new key goes last and an existing key keeps its place |
| Walker.PutKeepsWellFormed | search_logs.py:56 | assigning a key keeps every key once and keeps the key order equal to the key set |
| Walker.CollectWellFormed | search_logs.py:55-56 | the dictionary the loop builds stays well formed |
| Walker.CandidatesUpToSpec | search_logs.py:48-51 | an entry is searched exactly when it is a file and the list is empty or holds its lowercased suffix |
| Walker.CandidatesCount | search_logs.py:48-53 | the number of searched entries is the number of listed entries that are regular files passing the filter |
| Walker.SearchDirectory | search_logs.py:33-59 | for a missing root: no results and no count; otherwise the count is the number of searched entries and the results are the searched entries' non-empty scans |
| Walker.CollectKeys | search_logs.py:54-56 | a path is a key exactly when some searched entry with that path produced a non-empty scan |
| Walker.CollectInListingOrder | search_logs.py:47-56 | with distinct paths, the keys are the reporting files in listing order, each mapped to its own scan |
| Walker.CollectStoresScan | search_logs.py:54-56 | with distinct paths, each reporting file is stored with exactly its own scan |
| Walker.CollectCountsReported | search_logs.py:53-56 | the number of files in the results never exceeds the number searched |
| Walker.FilteredOutNeverReported | search_logs.py:48-51 | with distinct paths, a file the filter rejects never appears in the results |
| Cli.NormalizeExtension | search_logs.py:72 | the result starts with `.`; it is the value itself exactly when the value already starts with `.`, and otherwise it is `.` followed by the value |
| Cli.NormalizeExtensions | search_logs.py:72 | every normalised value starts with `.`; it is its input exactly when the input already starts with `.`, and otherwise its input behind a `.`, so letter case is kept |
| Cli.ResolveExtensions | search_logs.py:70-74 | a list is passed on exactly when `--ext` has at least one value, and it is the normalised values |
| Cli.AllFlagIsInert | search_logs.py:73-74 | `--all` never changes the extension list passed on |
| Cli.AllFlagKeepsDefaultFilter | search_logs.py:43-44 | without `--ext` values, `--all` still leads to the seven default extensions, so a `.bin` file is not searched |
| Cli.UpperCaseExtensionNeverMatches | search_logs.py:72 | an `--ext` value holding a capital letter never equals a lowercased suffix |
| Cli.Display | search_logs.py:91 | a line of at most 100 characters is shown unchanged; a longer one as its first 100 characters and `...`, 103 in all |

## Left out

- The filesystem is not modelled: `Path.exists`, `rglob`, `is_file` and `Path.suffix`. The root is `Missing` or a listing of entries, each carrying its path, whether it is a file, and its suffix; the listing order is the input order.
- Reading a file is not modelled: `open` with UTF-8 decoding and `errors='ignore'`, and newline translation. A file is given as the lines `readlines` returns, or as unreadable.
- The stderr diagnostic for an unreadable file is not modelled; such a file contributes no records.
- `argparse` and every `print` are not modelled, except the truncation expression (`Display`) and the file count, which `SearchDirectory` returns.
- Unicode case mapping: only the ASCII letters `A`-`Z` are lowercased. Python's full Unicode case mapping is library behaviour beyond this model.
- Walker.CollectInListingOrder: assumes distinct paths, which `rglob` yields but which the input listing does not enforce by itself. Walker.CollectStoresScan and Walker.FilteredOutNeverReported assume the same.
