/** The parts of `main` in search_logs.py that compute something: turning the
    `--ext` / `--all` options into the extension list handed to the directory
    search, and shortening long lines for display. Argument parsing and the
    printed report are not modelled. */
module Cli {
  import opened Text
  import opened Scanner
  import opened Walker

  /** Lines longer than this are cut when displayed. */
  const DisplayWidth: nat := 100

  /** One `--ext` value made dot-prefixed: `.` is added in front when it is
      missing, and nothing else changes (letter case is kept). */
  function NormalizeExtension(e: string): (r: string)
    ensures |r| > 0 && r[0] == '.'
    ensures r == e <==> (|e| > 0 && e[0] == '.')
    ensures r != e ==> r == "." + e
  {
    if |e| > 0 && e[0] == '.' then e else "." + e
  }

  /** The comprehension over `args.ext`. */
  function NormalizeExtensions(exts: seq<string>): (r: seq<string>)
    ensures |r| == |exts|
    ensures forall i :: 0 <= i < |r| ==> |r[i]| > 0 && r[i][0] == '.'
    ensures forall i :: 0 <= i < |r| ==> r[i] == exts[i] || r[i] == "." + exts[i]
    ensures forall i :: 0 <= i < |r| ==> (r[i] == exts[i] <==> |exts[i]| > 0 && exts[i][0] == '.')
  {
    seq(|exts|, i requires 0 <= i < |exts| => NormalizeExtension(exts[i]))
  }

  /** The extension list `main` passes on: the normalised `--ext` values when
      the option was given with at least one value, otherwise `None`, whether
      or not `--all` was given. `ext` is `None` when `--ext` is absent. */
  function ResolveExtensions(ext: Option<seq<string>>, all: bool): (r: Option<seq<string>>)
    ensures r.Some? <==> ext.Some? && ext.value != []
    ensures r.Some? ==> r.value == NormalizeExtensions(ext.value)
  {
    if ext.Some? && ext.value != [] then Some(NormalizeExtensions(ext.value))
    else if all then None
    else None
  }

  /** `--all` changes nothing: the outcome is the same with or without it. */
  lemma {:induction false} AllFlagIsInert(ext: Option<seq<string>>)
    ensures ResolveExtensions(ext, true) == ResolveExtensions(ext, false)
  {
  }

  /** With `--all` and no `--ext` values, the directory search still filters
      by the default list, so a regular `.bin` file is neither counted nor
      scanned. */
  lemma {:induction false} AllFlagKeepsDefaultFilter(ext: Option<seq<string>>, e: Entry)
    requires ext.None? || ext.value == []
    requires e.suffix == ".bin"
    ensures EffectiveExtensions(ResolveExtensions(ext, true)) == DefaultExtensions
    ensures !IsCandidate(e, EffectiveExtensions(ResolveExtensions(ext, true)))
  {
    assert Lower(".bin") == ".bin";
  }

  /** An `--ext` value holding an upper-case letter never matches: the
      suffix it is compared with has been lowercased, the value has not. */
  lemma {:induction false} UpperCaseExtensionNeverMatches(e: string, suffix: string)
    requires exists i :: 0 <= i < |e| && IsUpper(e[i])
    ensures Lower(suffix) != NormalizeExtension(e)
  {
    var i :| 0 <= i < |e| && IsUpper(e[i]);
    var r := NormalizeExtension(e);
    var j := if r == e then i else i + 1;
    assert r[j] == e[i];
    LowerHasNoUpper(suffix);
  }

  /** How `main` prints a record's line: the first 100 characters, followed
      by `...` only when the line is longer than that. */
  function Display(line: string): (r: string)
    ensures |line| <= DisplayWidth ==> r == line
    ensures |line| > DisplayWidth ==> |r| == DisplayWidth + 3 && r[..DisplayWidth] == line[..DisplayWidth] && r[DisplayWidth..] == "..."
  {
    (if |line| <= DisplayWidth then line else line[..DisplayWidth]) + (if |line| > DisplayWidth then "..." else "")
  }
}
