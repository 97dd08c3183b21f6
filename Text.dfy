/** String operations that the search relies on, with the meaning Python's
    `str` gives them: `lower`, `strip`, the `in` substring test and
    `''.join`. Strings are sequences of characters. */
module Text {

  /** An ASCII capital letter, the only letters `LowerChar` changes. */
  predicate IsUpper(c: char) {
    'A' <= c <= 'Z'
  }

  /** `str.lower` on one character, restricted to ASCII. */
  function LowerChar(c: char): char {
    if IsUpper(c) then (c as int + 32) as char else c
  }

  /** `str.lower` on a whole string, character by character. */
  function Lower(s: string): string {
    seq(|s|, i requires 0 <= i < |s| => LowerChar(s[i]))
  }

  /** The characters for which Python's `str.isspace` is true: the ASCII
      controls TAB to CR and FS to US, SPACE, NEL, NO-BREAK SPACE, and the
      Unicode space separators and line/paragraph separators. */
  predicate IsSpace(c: char) {
    var n := c as int;
    (0x09 <= n <= 0x0D) || (0x1C <= n <= 0x20) || n == 0x85 || n == 0xA0 ||
    n == 0x1680 || (0x2000 <= n <= 0x200A) || n == 0x2028 || n == 0x2029 ||
    n == 0x202F || n == 0x205F || n == 0x3000
  }

  /** Number of whitespace characters at the start of `s`. */
  function LeadingSpace(s: string): (n: nat)
    ensures n <= |s|
    ensures forall i :: 0 <= i < n ==> IsSpace(s[i])
    ensures n < |s| ==> !IsSpace(s[n])
  {
    if |s| > 0 && IsSpace(s[0]) then 1 + LeadingSpace(s[1..]) else 0
  }

  /** Number of whitespace characters at the end of `s`. */
  function TrailingSpace(s: string): (n: nat)
    ensures n <= |s|
    ensures forall i :: |s| - n <= i < |s| ==> IsSpace(s[i])
    ensures n < |s| ==> !IsSpace(s[|s| - n - 1])
  {
    if |s| > 0 && IsSpace(s[|s| - 1]) then 1 + TrailingSpace(s[..|s| - 1]) else 0
  }

  /** `s` without its leading whitespace. */
  function StripLeft(s: string): string {
    if |s| > 0 && IsSpace(s[0]) then StripLeft(s[1..]) else s
  }

  /** `s` without its trailing whitespace. */
  function StripRight(s: string): string {
    if |s| > 0 && IsSpace(s[|s| - 1]) then StripRight(s[..|s| - 1]) else s
  }

  /** `str.strip()` with no argument: `s` without its leading and trailing
      whitespace. */
  function Strip(s: string): string {
    StripRight(StripLeft(s))
  }

  /** Stripping on the left stops at the first non-whitespace character. */
  lemma {:induction false} StripLeftAt(s: string, a: nat)
    requires a <= |s|
    requires forall i :: 0 <= i < a ==> IsSpace(s[i])
    requires a < |s| ==> !IsSpace(s[a])
    ensures StripLeft(s) == s[a..]
  {
    if a > 0 {
      assert forall i :: 0 <= i < a - 1 ==> s[1..][i] == s[i + 1];
      StripLeftAt(s[1..], a - 1);
      assert s[1..][a - 1..] == s[a..];
    }
  }

  /** Stripping on the right stops after the last non-whitespace character. */
  lemma {:induction false} StripRightAt(s: string, b: nat)
    requires b <= |s|
    requires forall i :: b <= i < |s| ==> IsSpace(s[i])
    requires 0 < b ==> !IsSpace(s[b - 1])
    ensures StripRight(s) == s[..b]
    decreases |s|
  {
    if b < |s| {
      var t := s[..|s| - 1];
      assert forall i :: b <= i < |t| ==> t[i] == s[i];
      StripRightAt(t, b);
      assert t[..b] == s[..b];
    } else {
      assert s[..b] == s;
    }
  }

  /** `p` occurs in `s` starting at index `k`. */
  predicate OccursAt(s: string, p: string, k: nat) {
    k + |p| <= |s| && s[k..k + |p|] == p
  }

  lemma {:induction false} ShiftOccurrence(s: string, p: string)
    requires |s| > 0
    ensures forall k: nat :: OccursAt(s[1..], p, k) <==> OccursAt(s, p, k + 1)
  {
    forall k: nat ensures OccursAt(s[1..], p, k) <==> OccursAt(s, p, k + 1) {
      if k + |p| <= |s[1..]| {
        assert s[1..][k..k + |p|] == s[k + 1..k + 1 + |p|];
      }
    }
  }

  /** Python's `p in s` for strings: `p` occurs somewhere in `s`. The empty
      string occurs in every string. */
  function Contains(s: string, p: string): (b: bool)
    ensures b <==> exists k: nat :: OccursAt(s, p, k)
  {
    if |p| > |s| then
      false
    else if s[..|p|] == p then
      assert OccursAt(s, p, 0);
      true
    else
      ShiftOccurrence(s, p);
      assert !OccursAt(s, p, 0);
      assert forall k: nat :: OccursAt(s, p, k) ==> k > 0 && OccursAt(s[1..], p, k - 1);
      Contains(s[1..], p)
  }

  /** `''.join(parts)`: the parts concatenated in order, nothing between. */
  function Concat(parts: seq<string>): string {
    if parts == [] then [] else parts[0] + Concat(parts[1..])
  }

  lemma {:induction false} ConcatAppend(a: seq<string>, b: seq<string>)
    ensures Concat(a + b) == Concat(a) + Concat(b)
  {
    if a != [] {
      assert (a + b)[1..] == a[1..] + b;
      ConcatAppend(a[1..], b);
    } else {
      assert a + b == b;
    }
  }

  /** `''.join` keeps every part, in order: the part at index `i` occurs in
      the joined string right after the parts before it. */
  lemma {:induction false} ConcatContainsPart(parts: seq<string>, i: nat)
    requires i < |parts|
    ensures OccursAt(Concat(parts), parts[i], |Concat(parts[..i])|)
  {
    assert parts == parts[..i] + [parts[i]] + parts[i + 1..];
    ConcatAppend(parts[..i] + [parts[i]], parts[i + 1..]);
    ConcatAppend(parts[..i], [parts[i]]);
    assert Concat([parts[i]]) == parts[i] + Concat([]);
  }

  /** Lowercasing commutes with taking a slice. */
  lemma {:induction false} LowerSlice(s: string, a: nat, b: nat)
    requires a <= b <= |s|
    ensures Lower(s[a..b]) == Lower(s)[a..b]
  {
  }

  /** Lowercasing never creates nor removes whitespace. */
  lemma {:induction false} LowerKeepsSpace(c: char)
    ensures IsSpace(LowerChar(c)) == IsSpace(c)
  {
  }

  /** A lowercased string holds no capital letter. */
  lemma {:induction false} LowerHasNoUpper(s: string)
    ensures forall i :: 0 <= i < |Lower(s)| ==> !IsUpper(Lower(s)[i])
  {
  }

  /** `a` and `b` are where `str.strip()` cuts `s`: whitespace before `a`
      and from `b` on, and no whitespace at either edge of `s[a..b]`. */
  predicate StripsAt(s: string, a: nat, b: nat) {
    && a <= b <= |s|
    && (forall i :: 0 <= i < a ==> IsSpace(s[i]))
    && (a < |s| ==> !IsSpace(s[a]))
    && (forall i :: b <= i < |s| ==> IsSpace(s[i]))
    && (a < b ==> !IsSpace(s[b - 1]))
  }

  /** `Strip` is determined by the properties of its bounds. */
  lemma {:induction false} StripUnique(s: string, a: nat, b: nat)
    requires StripsAt(s, a, b)
    ensures Strip(s) == s[a..b]
  {
    StripLeftAt(s, a);
    var t := s[a..];
    assert forall i :: b - a <= i < |t| ==> t[i] == s[i + a];
    StripRightAt(t, b - a);
    assert t[..b - a] == s[a..b];
  }

  /** Every string has strip bounds: the leading whitespace ends at `a`, and
      the trailing whitespace of the rest starts at `b`. */
  lemma {:induction false} StripBounds(s: string) returns (a: nat, b: nat)
    ensures StripsAt(s, a, b) && Strip(s) == s[a..b]
  {
    a := LeadingSpace(s);
    var n := TrailingSpace(s[a..]);
    b := |s| - n;
    assert forall i :: b <= i < |s| ==> s[i] == s[a..][i - a];
    StripUnique(s, a, b);
  }

  /** An occurrence of `p` in `s` survives stripping `s`, provided `p`
      itself neither starts nor ends with whitespace. */
  lemma {:induction false} OccurrenceSurvivesStrip(s: string, p: string, k: nat)
    requires OccursAt(s, p, k)
    requires p != [] ==> !IsSpace(p[0]) && !IsSpace(p[|p| - 1])
    ensures Contains(Strip(s), p)
  {
    var a, b := StripBounds(s);
    if p == [] {
      assert OccursAt(Strip(s), p, 0);
    } else {
      var e := k + |p| - 1;
      assert !IsSpace(s[k]) && !IsSpace(s[e]) by {
        assert s[k..k + |p|][0] == s[k] && s[k..k + |p|][|p| - 1] == s[e];
      }
      assert a <= k;
      assert e < b;
      var r := s[a..b];
      assert forall i :: k - a <= i < k - a + |p| ==> r[i] == s[i + a];
      assert r[k - a..k - a + |p|] == s[k..k + |p|];
      assert OccursAt(r, p, k - a);
    }
  }

  /** The empty string occurs in every string. */
  lemma {:induction false} ContainsEmpty(s: string)
    ensures Contains(s, "")
  {
    assert OccursAt(s, "", 0);
  }

  /** A stripped string neither starts nor ends with whitespace. */
  lemma {:induction false} StripEdges(s: string)
    ensures Strip(s) != [] ==> !IsSpace(Strip(s)[0]) && !IsSpace(Strip(s)[|Strip(s)| - 1])
  {
    var a, b := StripBounds(s);
  }

  /** Each part, stripped, occurs in the stripped join of the parts. */
  lemma {:induction false} StrippedPartInStrippedJoin(parts: seq<string>, j: nat)
    requires j < |parts|
    ensures Contains(Strip(Concat(parts)), Strip(parts[j]))
  {
    var joined, part := Concat(parts), parts[j];
    ConcatContainsPart(parts, j);
    var at := |Concat(parts[..j])|;
    var a, b := StripBounds(part);
    assert joined[at..at + |part|] == part;
    assert forall i :: at + a <= i < at + b ==> joined[i] == part[i - at];
    assert joined[at + a..at + b] == part[a..b];
    assert OccursAt(joined, Strip(part), at + a);
    StripEdges(part);
    OccurrenceSurvivesStrip(joined, Strip(part), at + a);
  }

  /** Lowercasing and stripping commute, since lowercasing keeps every
      character's whitespace status. */
  lemma {:induction false} StripLower(s: string)
    ensures Strip(Lower(s)) == Lower(Strip(s))
  {
    var a, b := StripBounds(s);
    var ls := Lower(s);
    forall i | 0 <= i < |s| ensures IsSpace(ls[i]) == IsSpace(s[i]) {
      LowerKeepsSpace(s[i]);
    }
    StripUnique(ls, a, b);
    LowerSlice(s, a, b);
  }
}
