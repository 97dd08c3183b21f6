/** The directory search, `search_directory` in search_logs.py: walk the
    entries under the root, keep the regular files whose lowercased suffix
    is in the extension list, count them, scan each one, and record in an
    insertion-ordered dictionary the files that produced at least one match.
    The recursive listing itself (`Path.rglob`) is an input: the entries in
    the order the listing yields them. */
module Walker {
  import opened Text
  import opened Scanner

  datatype Option<+T> = None | Some(value: T)

  /** One item of the recursive listing: its path as `str(filepath)`, whether
      `is_file()` holds, its `Path.suffix`, and what reading it gives. */
  datatype Entry = Entry(path: string, isFile: bool, suffix: string, text: FileText)

  /** The root directory: absent, or present with its recursive listing. */
  datatype Directory = Missing | Listing(entries: seq<Entry>)

  /** A Python dictionary from path to match list: `order` holds the keys in
      insertion order, `byPath` the values. */
  datatype Results = Results(order: seq<string>, byPath: map<string, seq<MatchRecord>>)

  const NoResults := Results([], map[])

  /** The extensions searched when the caller passes none. */
  const DefaultExtensions: seq<string> := [".txt", ".log", ".md", ".json", ".csv", ".xml", ".html"]

  /** Keys in order, each once, and exactly the keys of the mapping. */
  ghost predicate WellFormed(r: Results) {
    && (forall i, j :: 0 <= i < j < |r.order| ==> r.order[i] != r.order[j])
    && (forall k :: k in r.order <==> k in r.byPath)
  }

  /** `results[key] = value`: a new key goes last, an existing key keeps its
      place and takes the new value. */
  function Put(r: Results, key: string, value: seq<MatchRecord>): (r': Results)
    ensures r'.byPath == r.byPath[key := value]
    ensures key in r.byPath ==> r'.order == r.order
    ensures key !in r.byPath ==> r'.order == r.order + [key]
  {
    if key in r.byPath then Results(r.order, r.byPath[key := value])
    else Results(r.order + [key], r.byPath[key := value])
  }

  /** Assigning a key keeps the dictionary well formed. */
  lemma {:induction false} PutKeepsWellFormed(r: Results, key: string, value: seq<MatchRecord>)
    requires WellFormed(r)
    ensures WellFormed(Put(r, key, value))
  {
  }

  /** `if extensions is None: extensions = [defaults]`. */
  function EffectiveExtensions(extensions: Option<seq<string>>): seq<string> {
    match extensions
    case None => DefaultExtensions
    case Some(exts) => exts
  }

  /** An entry is searched when it is a regular file and either the list is
      empty or its lowercased suffix is in the list. */
  predicate IsCandidate(e: Entry, exts: seq<string>) {
    e.isFile && (exts == [] || Lower(e.suffix) in exts)
  }

  /** The entries among the first `n` that are searched, in listing order. */
  function CandidatesUpTo(entries: seq<Entry>, exts: seq<string>, n: nat): (cs: seq<Entry>)
    requires n <= |entries|
    ensures |cs| <= n
  {
    if n == 0 then []
    else CandidatesUpTo(entries, exts, n - 1) + (if IsCandidate(entries[n - 1], exts) then [entries[n - 1]] else [])
  }

  /** The entries that are searched, in listing order. */
  function Candidates(entries: seq<Entry>, exts: seq<string>): seq<Entry> {
    CandidatesUpTo(entries, exts, |entries|)
  }

  /** An entry is searched exactly when it is listed and passes the filter. */
  lemma {:induction false} CandidatesUpToSpec(entries: seq<Entry>, exts: seq<string>, n: nat)
    requires n <= |entries|
    ensures forall e :: e in CandidatesUpTo(entries, exts, n) <==> e in entries[..n] && IsCandidate(e, exts)
  {
    if n > 0 {
      CandidatesUpToSpec(entries, exts, n - 1);
      assert entries[..n] == entries[..n - 1] + [entries[n - 1]];
    }
  }

  /** The searched count is the number of listed entries that are regular
      files passing the filter, each counted once. */
  lemma {:induction false} CandidatesCount(entries: seq<Entry>, exts: seq<string>, n: nat)
    requires n <= |entries|
    ensures |CandidatesUpTo(entries, exts, n)| == |set j | 0 <= j < n && IsCandidate(entries[j], exts)|
  {
    if n > 0 {
      CandidatesCount(entries, exts, n - 1);
      var prev := set j | 0 <= j < n - 1 && IsCandidate(entries[j], exts);
      var now := set j | 0 <= j < n && IsCandidate(entries[j], exts);
      if IsCandidate(entries[n - 1], exts) {
        assert now == prev + {n - 1};
      } else {
        assert now == prev;
      }
    }
  }

  /** What `search_in_file` returns for each entry, in listing order. */
  function ScanAll(entries: seq<Entry>, term: string): (scans: seq<seq<MatchRecord>>)
    ensures |scans| == |entries|
  {
    seq(|entries|, j requires 0 <= j < |entries| => ScanFile(entries[j].text, term))
  }

  /** Among the first `n` entries, the searched ones whose scan found
      something, as (path, matches) pairs in listing order; `scans[j]` is
      what scanning entry `j` gave. */
  function ReportedUpTo(entries: seq<Entry>, scans: seq<seq<MatchRecord>>, exts: seq<string>, n: nat): (rs: seq<(string, seq<MatchRecord>)>)
    requires |scans| == |entries| && n <= |entries|
  {
    if n == 0 then []
    else
      var rest := ReportedUpTo(entries, scans, exts, n - 1);
      if IsCandidate(entries[n - 1], exts) && scans[n - 1] != [] then rest + [(entries[n - 1].path, scans[n - 1])] else rest
  }

  /** The dictionary the loop has built after the first `n` entries. */
  function CollectUpTo(entries: seq<Entry>, scans: seq<seq<MatchRecord>>, exts: seq<string>, n: nat): (r: Results)
    requires |scans| == |entries| && n <= |entries|
  {
    if n == 0 then NoResults
    else
      var rest := CollectUpTo(entries, scans, exts, n - 1);
      if IsCandidate(entries[n - 1], exts) && scans[n - 1] != [] then Put(rest, entries[n - 1].path, scans[n - 1]) else rest
  }

  /** The dictionary the loop builds has each path once, in `order` exactly
      when in `byPath`. */
  lemma {:induction false} CollectWellFormed(entries: seq<Entry>, scans: seq<seq<MatchRecord>>, exts: seq<string>, n: nat)
    requires |scans| == |entries| && n <= |entries|
    ensures WellFormed(CollectUpTo(entries, scans, exts, n))
  {
    if n > 0 {
      CollectWellFormed(entries, scans, exts, n - 1);
      PutKeepsWellFormed(CollectUpTo(entries, scans, exts, n - 1), entries[n - 1].path, scans[n - 1]);
    }
  }

  /** The dictionary the loop builds over the whole listing. */
  function Collect(entries: seq<Entry>, scans: seq<seq<MatchRecord>>, exts: seq<string>): Results
    requires |scans| == |entries|
  {
    CollectUpTo(entries, scans, exts, |entries|)
  }

  /** The loop of `search_directory`. `searched` is the count it prints as
      "Searched N files", or `None` when the root is missing and only
      "Directory not found" is printed. */
  method SearchDirectory(root: Directory, term: string, extensions: Option<seq<string>>)
    returns (results: Results, searched: Option<nat>)
    ensures root.Missing? ==> results == NoResults && searched == None
    ensures root.Listing? ==>
      var exts := EffectiveExtensions(extensions);
      && searched == Some(|Candidates(root.entries, exts)|)
      && results == Collect(root.entries, ScanAll(root.entries, term), exts)
  {
    results := NoResults;
    if root.Missing? {
      return results, None;
    }
    var exts := if extensions.None? then DefaultExtensions else extensions.value;
    var entries := root.entries;
    ghost var scans := ScanAll(entries, term);
    var fileCount := 0;
    for i := 0 to |entries|
      invariant fileCount == |CandidatesUpTo(entries, exts, i)|
      invariant results == CollectUpTo(entries, scans, exts, i)
    {
      var filepath := entries[i];
      if filepath.isFile {
        if exts != [] && Lower(filepath.suffix) !in exts {
          assert !IsCandidate(filepath, exts);
          continue;
        }
        assert IsCandidate(filepath, exts);
        fileCount := fileCount + 1;
        var matches := SearchInFile(filepath.text, term);
        assert matches == scans[i];
        if matches != [] {
          results := Put(results, filepath.path, matches);
        }
      }
    }
    searched := Some(fileCount);
  }

  /** A path is a key of the results exactly when some searched entry with
      that path produced at least one match. */
  lemma {:induction false} CollectKeys(entries: seq<Entry>, scans: seq<seq<MatchRecord>>, exts: seq<string>, n: nat, key: string)
    requires |scans| == |entries| && n <= |entries|
    ensures key in CollectUpTo(entries, scans, exts, n).byPath <==>
      exists j :: 0 <= j < n && entries[j].path == key && IsCandidate(entries[j], exts) && scans[j] != []
  {
    if n > 0 {
      CollectKeys(entries, scans, exts, n - 1, key);
      CollectWellFormed(entries, scans, exts, n - 1);
    }
  }

  /** No path occurs twice in the listing, as `rglob` guarantees. */
  predicate DistinctPaths(entries: seq<Entry>) {
    forall i, j :: 0 <= i < j < |entries| ==> entries[i].path != entries[j].path
  }

  /** With distinct paths, the results are exactly the reported files: the
      keys in listing order, each mapped to its own scan. */
  lemma {:induction false} CollectInListingOrder(entries: seq<Entry>, scans: seq<seq<MatchRecord>>, exts: seq<string>, n: nat)
    requires |scans| == |entries| && n <= |entries| && DistinctPaths(entries)
    ensures var r, rs := CollectUpTo(entries, scans, exts, n), ReportedUpTo(entries, scans, exts, n);
      && |r.order| == |rs|
      && (forall k :: 0 <= k < |rs| ==> r.order[k] == rs[k].0 && rs[k].0 in r.byPath && r.byPath[rs[k].0] == rs[k].1)
  {
    if n > 0 {
      CollectInListingOrder(entries, scans, exts, n - 1);
      CollectWellFormed(entries, scans, exts, n - 1);
      if IsCandidate(entries[n - 1], exts) && scans[n - 1] != [] {
        CollectKeys(entries, scans, exts, n - 1, entries[n - 1].path);
        assert entries[n - 1].path !in CollectUpTo(entries, scans, exts, n - 1).byPath;
      }
    }
  }

  /** With distinct paths, each searched entry whose scan found something
      is stored under its path with exactly that scan's records. */
  lemma {:induction false} CollectStoresScan(entries: seq<Entry>, scans: seq<seq<MatchRecord>>, exts: seq<string>, n: nat, j: nat)
    requires |scans| == |entries| && j < n <= |entries| && DistinctPaths(entries)
    requires IsCandidate(entries[j], exts) && scans[j] != []
    ensures entries[j].path in CollectUpTo(entries, scans, exts, n).byPath
    ensures CollectUpTo(entries, scans, exts, n).byPath[entries[j].path] == scans[j]
  {
    if j < n - 1 {
      CollectStoresScan(entries, scans, exts, n - 1, j);
    }
  }

  /** The number of files reported never exceeds the number searched. */
  lemma {:induction false} CollectCountsReported(entries: seq<Entry>, scans: seq<seq<MatchRecord>>, exts: seq<string>, n: nat)
    requires |scans| == |entries| && n <= |entries|
    ensures |CollectUpTo(entries, scans, exts, n).order| <= |ReportedUpTo(entries, scans, exts, n)| <= |CandidatesUpTo(entries, exts, n)|
  {
    if n > 0 {
      CollectCountsReported(entries, scans, exts, n - 1);
    }
  }

  /** A file the filter rejects is neither counted nor scanned, so it is
      not among the results. */
  lemma {:induction false} FilteredOutNeverReported(entries: seq<Entry>, scans: seq<seq<MatchRecord>>, exts: seq<string>, j: nat)
    requires |scans| == |entries| && j < |entries| && DistinctPaths(entries) && !IsCandidate(entries[j], exts)
    ensures entries[j].path !in Collect(entries, scans, exts).byPath
  {
    CollectKeys(entries, scans, exts, |entries|, entries[j].path);
  }
}
