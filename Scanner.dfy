/** The line scanner, `search_in_file` in search_logs.py: every line whose
    lowercased text contains the lowercased term yields one match record
    carrying its 1-based number, the stripped line and a window of up to
    three lines around it. */
module Scanner {
  import opened Text

  /** The term searched when `--term` is not given. */
  const DefaultTerm: string := "may-britt moser"

  /** One match: `lineNum` is 1-based, `line` is the stripped line and
      `context` the stripped join of the window around it. */
  datatype MatchRecord = MatchRecord(lineNum: nat, line: string, context: string)

  /** What `readlines` returned for a file (each line keeps its newline),
      or `Unreadable` when opening or reading raised. */
  datatype FileText = Unreadable | Readable(lines: seq<string>)

  /** The scanner's test: `term.lower() in line.lower()`. */
  predicate IsHit(line: string, term: string) {
    Contains(Lower(line), Lower(term))
  }

  /** `max(0, i - 1)`: first index of the window around line `i`. */
  function WindowStart(i: nat): nat {
    if i < 1 then 0 else i - 1
  }

  /** `min(n, i + 2)`: end (exclusive) of the window around line `i` of `n`. */
  function WindowEnd(n: nat, i: nat): nat {
    if n < i + 2 then n else i + 2
  }

  /** The lines around line `i`: it always holds line `i`, spans one to three
      lines, and spans three exactly when line `i` has a line before it and
      a line after it. */
  function Window(lines: seq<string>, i: nat): (w: seq<string>)
    requires i < |lines|
    ensures WindowStart(i) <= i < WindowEnd(|lines|, i) <= |lines|
    ensures w == lines[WindowStart(i)..WindowEnd(|lines|, i)]
    ensures 1 <= |w| <= 3
    ensures |w| == 3 <==> 0 < i < |lines| - 1
    ensures w[i - WindowStart(i)] == lines[i]
  {
    lines[WindowStart(i)..WindowEnd(|lines|, i)]
  }

  /** The record produced for line `i`. */
  function RecordAt(lines: seq<string>, i: nat): MatchRecord
    requires i < |lines|
  {
    MatchRecord(i + 1, Strip(lines[i]), Strip(Concat(Window(lines, i))))
  }

  /** The indices of the matching lines among the first `n`, in file order. */
  function HitsUpTo(lines: seq<string>, term: string, n: nat): (h: seq<nat>)
    requires n <= |lines|
    ensures forall k :: 0 <= k < |h| ==> h[k] < n
  {
    if n == 0 then []
    else HitsUpTo(lines, term, n - 1) + (if IsHit(lines[n - 1], term) then [n - 1] else [])
  }

  /** Among the first `n` lines, an index is listed exactly when its line
      matches, and the listed indices strictly increase, so each appears
      once. */
  lemma {:induction false} HitsUpToSpec(lines: seq<string>, term: string, n: nat)
    requires n <= |lines|
    ensures forall k :: 0 <= k < |HitsUpTo(lines, term, n)| ==> IsHit(lines[HitsUpTo(lines, term, n)[k]], term)
    ensures forall i :: 0 <= i < n && IsHit(lines[i], term) ==> i in HitsUpTo(lines, term, n)
    ensures forall j, k :: 0 <= j < k < |HitsUpTo(lines, term, n)| ==> HitsUpTo(lines, term, n)[j] < HitsUpTo(lines, term, n)[k]
  {
    if n > 0 {
      HitsUpToSpec(lines, term, n - 1);
      var prev, h := HitsUpTo(lines, term, n - 1), HitsUpTo(lines, term, n);
      assert forall k :: 0 <= k < |prev| ==> h[k] == prev[k];
      assert forall i :: i in prev ==> i in h;
      if IsHit(lines[n - 1], term) {
        assert h == prev + [n - 1];
      } else {
        assert h == prev;
      }
    }
  }

  /** The indices of all matching lines of a file. */
  function Hits(lines: seq<string>, term: string): seq<nat> {
    HitsUpTo(lines, term, |lines|)
  }

  /** The records for the given line indices, in the same order. */
  function Records(lines: seq<string>, hits: seq<nat>): seq<MatchRecord>
    requires forall k :: 0 <= k < |hits| ==> hits[k] < |lines|
  {
    seq(|hits|, k requires 0 <= k < |hits| => RecordAt(lines, hits[k]))
  }

  /** The records the scanner has appended after the first `n` lines. */
  function ScanUpTo(lines: seq<string>, term: string, n: nat): seq<MatchRecord>
    requires n <= |lines|
  {
    if n == 0 then []
    else ScanUpTo(lines, term, n - 1) + (if IsHit(lines[n - 1], term) then [RecordAt(lines, n - 1)] else [])
  }

  /** The records the scanner returns for a whole file. */
  function Scan(lines: seq<string>, term: string): seq<MatchRecord> {
    ScanUpTo(lines, term, |lines|)
  }

  /** The scan holds, in order, the record of each matching line. */
  lemma {:induction false} ScanUpToRecordsHits(lines: seq<string>, term: string, n: nat)
    requires n <= |lines|
    ensures ScanUpTo(lines, term, n) == Records(lines, HitsUpTo(lines, term, n))
  {
    if n > 0 {
      ScanUpToRecordsHits(lines, term, n - 1);
      var h := HitsUpTo(lines, term, n - 1);
      if IsHit(lines[n - 1], term) {
        assert Records(lines, h + [n - 1]) == Records(lines, h) + [RecordAt(lines, n - 1)];
      }
    }
  }

  /** What `search_in_file` returns: the scan of the file's lines, or no
      records when the file could not be read. */
  function ScanFile(file: FileText, term: string): seq<MatchRecord> {
    match file
    case Unreadable => []
    case Readable(lines) => Scan(lines, term)
  }

  /** The scan loop of `search_in_file`. The diagnostic printed for an
      unreadable file is not modelled; such a file yields no records. */
  method SearchInFile(file: FileText, term: string) returns (matches: seq<MatchRecord>)
    ensures matches == ScanFile(file, term)
  {
    matches := [];
    if file.Readable? {
      var lines := file.lines;
      for i := 0 to |lines|
        invariant matches == ScanUpTo(lines, term, i)
      {
        if Contains(Lower(lines[i]), Lower(term)) {
          var start := if 0 < i - 1 then i - 1 else 0;
          var end := if |lines| < i + 2 then |lines| else i + 2;
          var context := Strip(Concat(lines[start..end]));
          assert MatchRecord(i + 1, Strip(lines[i]), context) == RecordAt(lines, i);
          matches := matches + [MatchRecord(i + 1, Strip(lines[i]), context)];
        }
      }
    }
  }

  /** Some record of `rs` is numbered `num`. */
  predicate HasLine(rs: seq<MatchRecord>, num: nat) {
    exists k :: 0 <= k < |rs| && rs[k].lineNum == num
  }

  /** A line has a record exactly when the lowercased term occurs in the
      lowercased line. */
  lemma {:induction false} ScanFindsHits(lines: seq<string>, term: string)
    ensures forall i :: 0 <= i < |lines| ==>
      (IsHit(lines[i], term) <==> HasLine(Scan(lines, term), i + 1))
  {
    ScanUpToRecordsHits(lines, term, |lines|);
    HitsUpToSpec(lines, term, |lines|);
    var h, r := Hits(lines, term), Scan(lines, term);
    forall i | 0 <= i < |lines| ensures IsHit(lines[i], term) <==> HasLine(r, i + 1) {
      if IsHit(lines[i], term) {
        var k :| 0 <= k < |h| && h[k] == i;
        assert r[k].lineNum == i + 1;
      }
      if HasLine(r, i + 1) {
        var k :| 0 <= k < |r| && r[k].lineNum == i + 1;
        assert h[k] == i;
      }
    }
  }

  /** Each record is the one built for its line: number `i + 1`, the
      stripped line, the stripped window around it. */
  lemma {:induction false} ScanRecordsLines(lines: seq<string>, term: string)
    ensures forall k :: 0 <= k < |Scan(lines, term)| ==>
      1 <= Scan(lines, term)[k].lineNum <= |lines| &&
      Scan(lines, term)[k] == RecordAt(lines, Scan(lines, term)[k].lineNum - 1)
  {
    ScanUpToRecordsHits(lines, term, |lines|);
    var h := Hits(lines, term);
    assert forall k :: 0 <= k < |Scan(lines, term)| ==> Scan(lines, term)[k] == RecordAt(lines, h[k]);
  }

  /** Records come in file order, one per line. */
  lemma {:induction false} ScanInFileOrder(lines: seq<string>, term: string)
    ensures forall j, k :: 0 <= j < k < |Scan(lines, term)| ==>
      Scan(lines, term)[j].lineNum < Scan(lines, term)[k].lineNum
  {
    ScanUpToRecordsHits(lines, term, |lines|);
    HitsUpToSpec(lines, term, |lines|);
    var h, r := Hits(lines, term), Scan(lines, term);
    assert forall k :: 0 <= k < |r| ==> r[k].lineNum == h[k] + 1;
  }

  /** The empty term occurs in every line, so every line is a hit. */
  lemma {:induction false} EmptyTermHitsEveryLine(lines: seq<string>, n: nat)
    requires n <= |lines|
    ensures |HitsUpTo(lines, "", n)| == n
    ensures forall i :: 0 <= i < n ==> HitsUpTo(lines, "", n)[i] == i
  {
    if n > 0 {
      EmptyTermHitsEveryLine(lines, n - 1);
      ContainsEmpty(Lower(lines[n - 1]));
      assert HitsUpTo(lines, "", n) == HitsUpTo(lines, "", n - 1) + [n - 1];
    }
  }

  /** With the empty term, the scan holds the record of every line, in order. */
  lemma {:induction false} EmptyTermMatchesEveryLine(lines: seq<string>)
    ensures |Scan(lines, "")| == |lines|
    ensures forall i :: 0 <= i < |lines| ==> Scan(lines, "")[i] == RecordAt(lines, i)
  {
    ScanUpToRecordsHits(lines, "", |lines|);
    EmptyTermHitsEveryLine(lines, |lines|);
  }

  /** The stripped line of a record occurs in its stripped context. */
  lemma {:induction false} RecordLineInContext(lines: seq<string>, i: nat)
    requires i < |lines|
    ensures Contains(RecordAt(lines, i).context, RecordAt(lines, i).line)
  {
    StrippedPartInStrippedJoin(Window(lines, i), i - WindowStart(i));
  }

  /** When the term neither starts nor ends with whitespace, the stripped
      line of every record still contains it, ignoring case. */
  lemma {:induction false} RecordLineKeepsTerm(lines: seq<string>, i: nat, term: string)
    requires i < |lines| && IsHit(lines[i], term)
    requires Strip(term) == term
    ensures Contains(Lower(RecordAt(lines, i).line), Lower(term))
  {
    var p := Lower(term);
    var k: nat :| OccursAt(Lower(lines[i]), p, k);
    if p != [] {
      StripEdges(term);
      LowerKeepsSpace(term[0]);
      LowerKeepsSpace(term[|term| - 1]);
    }
    OccurrenceSurvivesStrip(Lower(lines[i]), p, k);
    StripLower(lines[i]);
  }

  /** A term with whitespace at its edge can match a line whose stripped text
      no longer contains it: `moser ` matches `Moser \n`, whose record keeps
      only `Moser`. */
  lemma {:induction false} EdgeSpaceTermLostByStrip()
    ensures IsHit("Moser \n", "moser ")
    ensures Scan(["Moser \n"], "moser ") == [MatchRecord(1, "Moser", "Moser")]
    ensures !Contains(Lower("Moser"), Lower("moser "))
  {
    assert Lower("Moser \n")[0..6] == "moser ";
    assert OccursAt(Lower("Moser \n"), Lower("moser "), 0);
    var lines := ["Moser \n"];
    StripUnique(lines[0], 0, 5);
    assert Window(lines, 0) == lines;
    assert Concat(lines) == lines[0];
    assert RecordAt(lines, 0) == MatchRecord(1, "Moser", "Moser");
  }

  /** Stripping a line whose only edge whitespace is its final newline removes
      just that newline. */
  lemma {:induction false} StripFinalNewline(s: string)
    requires |s| >= 2 && s[|s| - 1] == '\n'
    requires !IsSpace(s[0]) && !IsSpace(s[|s| - 2])
    ensures Strip(s) == s[..|s| - 1]
  {
    StripUnique(s, 0, |s| - 1);
  }

  /** A line shorter than the term cannot match it. */
  lemma {:induction false} ShortLineMisses(line: string, term: string)
    requires |line| < |term|
    ensures !IsHit(line, term)
  {
  }

  /** A line that begins with the term, ignoring case, matches it. */
  lemma {:induction false} MatchAtLineStart(line: string, term: string)
    requires |term| <= |line| && Lower(line[..|term|]) == Lower(term)
    ensures IsHit(line, term)
  {
    LowerSlice(line, 0, |term|);
    assert OccursAt(Lower(line), Lower(term), 0);
  }

  /** The record for the middle line of `x`, `May-Britt Moser`,
      `y`: number 2, the line without its newline, all three lines as
      context. */
  lemma {:induction false} MiddleLineRecord()
    ensures RecordAt(["x\n", "May-Britt Moser\n", "y\n"], 1)
         == MatchRecord(2, "May-Britt Moser", "x\nMay-Britt Moser\ny")
  {
    var lines := ["x\n", "May-Britt Moser\n", "y\n"];
    StripFinalNewline(lines[1]);
    assert Window(lines, 1) == lines;
    var joined := "x\nMay-Britt Moser\ny\n";
    assert Concat(lines[2..]) == lines[2];
    assert Concat(lines[1..]) == lines[1] + lines[2];
    assert Concat(lines) == joined;
    assert joined[..|joined| - 1] == "x\nMay-Britt Moser\ny";
    StripFinalNewline(joined);
  }

  /** A file `x`, `May-Britt Moser`, `y` searched for the default
      term yields one record, for line 2, whose context is all three lines. */
  lemma {:induction false} MiddleLineMatch()
    ensures Scan(["x\n", "May-Britt Moser\n", "y\n"], DefaultTerm)
         == [MatchRecord(2, "May-Britt Moser", "x\nMay-Britt Moser\ny")]
  {
    var lines, term := ["x\n", "May-Britt Moser\n", "y\n"], DefaultTerm;
    ShortLineMisses(lines[0], term);
    ShortLineMisses(lines[2], term);
    MatchAtLineStart(lines[1], term);
    MiddleLineRecord();
    assert ScanUpTo(lines, term, 1) == [];
    assert ScanUpTo(lines, term, 2) == [RecordAt(lines, 1)];
  }
}
