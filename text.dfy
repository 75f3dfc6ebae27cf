/**
 * The string operations of Python's `str` that the auditor relies on, over ASCII:
 * `lower`, `strip`, `split()`, `split(sep)`, `join`, `rstrip(chars)`, `replace`,
 * `splitlines`, `title`, `in`, `startswith`, `endswith` and `str(int)`.
 */
module Text {
  import opened Wrappers

  /** Python's `str.isspace` restricted to ASCII: tab, line feed, vertical tab, form feed,
      carriage return, the four information separators and the space. */
  predicate IsSpace(c: char) {
    c == ' ' || (9 <= c as int <= 13) || (28 <= c as int <= 31)
  }

  /** The ASCII characters at which Python's `str.splitlines` breaks a line. */
  predicate IsLineBreak(c: char) {
    c == '\n' || c == '\r' || c as int == 11 || c as int == 12 || (28 <= c as int <= 30)
  }

  predicate IsUpper(c: char) { 'A' <= c <= 'Z' }
  predicate IsLower(c: char) { 'a' <= c <= 'z' }
  predicate IsLetter(c: char) { IsUpper(c) || IsLower(c) }

  function ToLower(c: char): char {
    if IsUpper(c) then (c as int + 32) as char else c
  }

  function ToUpper(c: char): char {
    if IsLower(c) then (c as int - 32) as char else c
  }

  /** `s.lower()` */
  function Lower(s: string): (r: string)
    ensures |r| == |s|
  {
    seq(|s|, i requires 0 <= i < |s| => ToLower(s[i]))
  }

  predicate StartsWith(s: string, p: string) {
    |p| <= |s| && s[..|p|] == p
  }

  predicate EndsWith(s: string, p: string) {
    |p| <= |s| && s[|s| - |p|..] == p
  }

  /** `p` occurs in `s` starting at position `i`. */
  predicate OccursAt(s: string, p: string, i: int) {
    0 <= i && i + |p| <= |s| && s[i..i + |p|] == p
  }

  /** Python's `p in s` on strings: `p` occurs in `s` as a contiguous piece. */
  predicate Contains(s: string, p: string) {
    exists i | 0 <= i <= |s| :: OccursAt(s, p, i)
  }

  lemma OccursAtTail(s: string, p: string, i: int)
    requires 1 <= i && |s| > 0
    ensures OccursAt(s, p, i) <==> OccursAt(s[1..], p, i - 1)
  {
    if i + |p| <= |s| {
      assert s[1..][i - 1..i - 1 + |p|] == s[i..i + |p|];
    }
  }

  /** `s.find(p, k)` as an option: the first position from `k` on at which `p` occurs. */
  function IndexFrom(s: string, p: string, k: nat): (r: Option<nat>)
    ensures r.Some? ==> k <= r.value && r.value + |p| <= |s|
    decreases |s| - k
  {
    if k + |p| > |s| then None
    else if s[k..k + |p|] == p then Some(k)
    else IndexFrom(s, p, k + 1)
  }

  /** `s.find(p)` as an option: the first position at which `p` occurs. */
  function IndexOf(s: string, p: string): (r: Option<nat>)
    ensures r.Some? ==> r.value + |p| <= |s|
  {
    IndexFrom(s, p, 0)
  }

  /** The scan from `k` reports an occurrence with none between `k` and it, and reports none
      exactly when `p` occurs nowhere from `k` on. */
  lemma {:induction false} IndexFromFirst(s: string, p: string, k: nat)
    ensures IndexFrom(s, p, k).Some? ==> OccursAt(s, p, IndexFrom(s, p, k).value)
    ensures IndexFrom(s, p, k).Some? ==>
      forall i :: k <= i < IndexFrom(s, p, k).value ==> !OccursAt(s, p, i)
    ensures IndexFrom(s, p, k).None? <==> forall i :: k <= i ==> !OccursAt(s, p, i)
    decreases |s| - k
  {
    if k + |p| > |s| {
    } else if s[k..k + |p|] == p {
      assert OccursAt(s, p, k);
    } else {
      assert !OccursAt(s, p, k);
      IndexFromFirst(s, p, k + 1);
    }
  }

  /** `find` reports an occurrence, no occurrence lies before it, and it reports none exactly
      when `p` does not occur. */
  lemma IndexOfFirst(s: string, p: string)
    ensures IndexOf(s, p).Some? ==> OccursAt(s, p, IndexOf(s, p).value)
    ensures IndexOf(s, p).Some? ==> forall i :: 0 <= i < IndexOf(s, p).value ==> !OccursAt(s, p, i)
    ensures IndexOf(s, p).None? <==> !Contains(s, p)
  {
    IndexFromFirst(s, p, 0);
  }

  /** `s.split(sep)` for a non-empty separator: the pieces between non-overlapping
      occurrences of `sep`, scanning from the left. */
  function Split(s: string, sep: string): (parts: seq<string>)
    requires |sep| > 0
    ensures |parts| >= 1
    decreases |s|
  {
    match IndexOf(s, sep)
    case None => [s]
    case Some(i) => [s[..i]] + Split(s[i + |sep|..], sep)
  }

  /** `sep.join(parts)` */
  function Join(parts: seq<string>, sep: string): string
    decreases |parts|
  {
    if |parts| == 0 then ""
    else if |parts| == 1 then parts[0]
    else parts[0] + sep + Join(parts[1..], sep)
  }

  /** The last piece of `s.split(sep)`, Python's `s.split(sep)[-1]`: what follows the first
      occurrence of `sep`, split again, or `s` itself when `sep` does not occur. */
  function LastPiece(s: string, sep: string): string
    requires |sep| > 0
    decreases |s|
  {
    match IndexOf(s, sep)
    case None => s
    case Some(i) => LastPiece(s[i + |sep|..], sep)
  }

  /** `LastPiece` is the last element of `Split`. */
  lemma {:induction false} LastPieceOfSplit(s: string, sep: string)
    requires |sep| > 0
    ensures LastPiece(s, sep) == Split(s, sep)[|Split(s, sep)| - 1]
    decreases |s|
  {
    match IndexOf(s, sep)
    case None =>
    case Some(i) =>
      var rest := s[i + |sep|..];
      LastPieceOfSplit(rest, sep);
      assert Split(s, sep) == [s[..i]] + Split(rest, sep);
  }

  /** The last piece of a split is a suffix of the text in which the separator does not occur:
      it is everything after the last occurrence. */
  lemma LastPieceIsSuffix(s: string, sep: string)
    requires |sep| > 0
    ensures EndsWith(s, LastPiece(s, sep)) && !Contains(LastPiece(s, sep), sep)
  {
    if Contains(s, sep) {
      var k := LastPieceStart(s, sep);
    } else {
      LastPieceWhenSingle(s, sep);
    }
  }

  lemma IndexOfFound(s: string, p: string)
    requires Contains(s, p)
    ensures IndexOf(s, p).Some? && OccursAt(s, p, IndexOf(s, p).value)
  {
    IndexOfFirst(s, p);
  }

  lemma LastPieceWhenSingle(s: string, sep: string)
    requires |sep| > 0 && !Contains(s, sep)
    ensures LastPiece(s, sep) == s
  {
    IndexOfFirst(s, sep);
  }

  /** When the separator occurs, the last piece is what follows one of its occurrences. */
  lemma {:induction false} LastPieceStart(s: string, sep: string) returns (k: nat)
    requires |sep| > 0 && Contains(s, sep)
    ensures OccursAt(s, sep, k) && LastPiece(s, sep) == s[k + |sep|..]
    ensures !Contains(s[k + |sep|..], sep)
    decreases |s|
  {
    IndexOfFound(s, sep);
    var i := IndexOf(s, sep).value;
    var j := i + |sep|;
    var rest := s[j..];
    LastPieceAfterFirst(s, sep, i);
    if Contains(rest, sep) {
      var k' := LastPieceStart(rest, sep);
      k := j + k';
      ShiftOccurrence(s, sep, j, k');
      assert LastPiece(s, sep) == LastPiece(rest, sep) == s[k + |sep|..];
    } else {
      LastPieceAfterLast(s, sep, i);
      k := i;
    }
  }

  /** When the separator occurs, the last piece starts right after an occurrence of it. */
  lemma LastPieceFollowsSeparator(s: string, sep: string)
    requires |sep| > 0 && Contains(s, sep)
    ensures |LastPiece(s, sep)| + |sep| <= |s|
    ensures EndsWith(s[..|s| - |LastPiece(s, sep)|], sep)
  {
    var k := LastPieceStart(s, sep);
    TailAfterOccurrence(s, sep, k);
  }

  lemma LastPieceAfterFirst(s: string, sep: string, i: nat)
    requires |sep| > 0 && IndexOf(s, sep) == Some(i)
    ensures LastPiece(s, sep) == LastPiece(s[i + |sep|..], sep)
  {
  }

  /** An occurrence in `s[j..]` is an occurrence in `s`, with the same text after it. */
  lemma ShiftOccurrence(s: string, p: string, j: nat, k: nat)
    requires j <= |s| && OccursAt(s[j..], p, k)
    ensures OccursAt(s, p, j + k) && s[j..][k + |p|..] == s[j + k + |p|..]
  {
    assert s[j..][k..k + |p|] == s[j + k..j + k + |p|];
  }

  lemma LastPieceAfterLast(s: string, sep: string, i: nat)
    requires |sep| > 0 && IndexOf(s, sep) == Some(i) && !Contains(s[i + |sep|..], sep)
    ensures LastPiece(s, sep) == s[i + |sep|..]
  {
    LastPieceAfterFirst(s, sep, i);
    LastPieceWhenSingle(s[i + |sep|..], sep);
  }

  lemma TailAfterOccurrence(s: string, sep: string, i: nat)
    requires OccursAt(s, sep, i)
    ensures EndsWith(s[..|s| - |s[i + |sep|..]|], sep)
  {
    var j := i + |sep|;
    assert s[..|s| - |s[j..]|] == s[..j];
    assert s[..j][i..] == sep;
  }

  /** `s.rstrip(chars)`: drops every trailing character that belongs to `chars`. */
  function RStrip(s: string, chars: set<char>): (r: string)
    ensures StartsWith(s, r)
    ensures |r| == 0 || r[|r| - 1] !in chars
    ensures forall i :: |r| <= i < |s| ==> s[i] in chars
    decreases |s|
  {
    if |s| > 0 && s[|s| - 1] in chars then RStrip(s[..|s| - 1], chars) else s
  }

  /** Python's ASCII whitespace: the characters `IsSpace` accepts. */
  const Whitespace: set<char> := set c: char | 0 <= c as int < 128 && IsSpace(c)

  lemma WhitespaceIsSpace()
    ensures forall c :: c in Whitespace <==> IsSpace(c)
  {
  }

  /** `s.rstrip()`: `RStrip` over the whitespace characters. */
  function TrimEnd(s: string): (r: string)
    ensures StartsWith(s, r)
    ensures |r| == 0 || !IsSpace(r[|r| - 1])
    ensures forall i :: |r| <= i < |s| ==> IsSpace(s[i])
    ensures |s| > 0 && !IsSpace(s[0]) && |r| > 0 ==> !IsSpace(r[0])
  {
    WhitespaceIsSpace();
    RStrip(s, Whitespace)
  }

  /** Length of the run of whitespace at the front of `s`. */
  function LeadingSpaces(s: string): (n: nat)
    ensures n <= |s|
    ensures forall i :: 0 <= i < n ==> IsSpace(s[i])
    ensures n < |s| ==> !IsSpace(s[n])
    decreases |s|
  {
    if |s| > 0 && IsSpace(s[0]) then 1 + LeadingSpaces(s[1..]) else 0
  }

  /** `s.strip()`: what is left after the leading and the trailing whitespace are dropped. */
  function Strip(s: string): (r: string)
    ensures |r| == 0 || (!IsSpace(r[0]) && !IsSpace(r[|r| - 1]))
    ensures LeadingSpaces(s) + |r| <= |s|
    ensures r == s[LeadingSpaces(s)..LeadingSpaces(s) + |r|]
    ensures forall i :: LeadingSpaces(s) + |r| <= i < |s| ==> IsSpace(s[i])
  {
    var k := LeadingSpaces(s);
    var r := TrimEnd(s[k..]);
    StripSlice(s, k, r);
    r
  }

  /** A prefix `r` of `s[k..]` that leaves only whitespace behind is the slice of `s` at `k`,
      and every character of `s` after it is whitespace. */
  lemma StripSlice(s: string, k: nat, r: string)
    requires k <= |s| && StartsWith(s[k..], r)
    requires forall i :: |r| <= i < |s[k..]| ==> IsSpace(s[k..][i])
    ensures k + |r| <= |s| && r == s[k..k + |r|]
    ensures forall i :: k + |r| <= i < |s| ==> IsSpace(s[i])
  {
    assert s[k..k + |r|] == s[k..][..|r|];
    forall i | k + |r| <= i < |s|
      ensures IsSpace(s[i])
    {
      assert s[i] == s[k..][i - k];
    }
  }

  /** Length of the run of non-space characters at the front of `s`. */
  function WordLength(s: string): (n: nat)
    ensures n <= |s|
    ensures forall i :: 0 <= i < n ==> !IsSpace(s[i])
    ensures n < |s| ==> IsSpace(s[n])
    decreases |s|
  {
    if |s| == 0 || IsSpace(s[0]) then 0 else 1 + WordLength(s[1..])
  }

  /** `s.split()` with no argument: the maximal runs of non-space characters. */
  function Words(s: string): (ws: seq<string>)
    ensures forall w :: w in ws ==> |w| > 0
    ensures forall w, i :: w in ws && 0 <= i < |w| ==> !IsSpace(w[i])
    decreases |s|
  {
    if |s| == 0 then []
    else if IsSpace(s[0]) then Words(s[1..])
    else
      var n := WordLength(s);
      [s[..n]] + Words(s[n..])
  }

  /** `s.replace(p, q)` for a non-empty `p`: every non-overlapping occurrence of `p`,
      scanning from the left, becomes `q`. */
  function ReplaceAll(s: string, p: string, q: string): (r: string)
    requires |p| > 0
    decreases |s|
  {
    if StartsWith(s, p) then q + ReplaceAll(s[|p|..], p, q)
    else if |s| == 0 then ""
    else [s[0]] + ReplaceAll(s[1..], p, q)
  }

  /** A text in which `p` does not occur is left as it is by `replace`. */
  lemma {:induction false} ReplaceAllAbsent(s: string, p: string, q: string)
    requires |p| > 0 && !Contains(s, p)
    ensures ReplaceAll(s, p, q) == s
    decreases |s|
  {
    if StartsWith(s, p) {
      assert OccursAt(s, p, 0);
    } else if |s| > 0 {
      assert !Contains(s[1..], p) by {
        if Contains(s[1..], p) {
          var i :| 0 <= i <= |s[1..]| && OccursAt(s[1..], p, i);
          OccursAtTail(s, p, i + 1);
        }
      }
      ReplaceAllAbsent(s[1..], p, q);
    }
  }

  /** Length of the line at the front of `s`, up to its first line break. */
  function LineLength(s: string): (n: nat)
    ensures n <= |s|
    ensures forall i :: 0 <= i < n ==> !IsLineBreak(s[i])
    ensures n < |s| ==> IsLineBreak(s[n])
    decreases |s|
  {
    if |s| == 0 || IsLineBreak(s[0]) then 0 else 1 + LineLength(s[1..])
  }

  /** `s.splitlines()`: lines without their terminators; "\r\n" counts as one break and a
      final terminator does not start an empty line. */
  function SplitLines(s: string): (lines: seq<string>)
    ensures forall l, i :: l in lines && 0 <= i < |l| ==> !IsLineBreak(l[i])
    decreases |s|
  {
    if |s| == 0 then []
    else
      var n := LineLength(s);
      if n == |s| then [s]
      else
        var width := if s[n] == '\r' && n + 1 < |s| && s[n + 1] == '\n' then 2 else 1;
        [s[..n]] + SplitLines(s[n + width..])
  }

  predicate NoLineBreaks(s: string) {
    forall i :: 0 <= i < |s| ==> !IsLineBreak(s[i])
  }

  lemma {:induction false} LineLengthOfLine(a: string, rest: string)
    requires NoLineBreaks(a)
    requires |rest| == 0 || IsLineBreak(rest[0])
    ensures LineLength(a + rest) == |a|
    decreases |a|
  {
    if |a| > 0 {
      assert (a + rest)[1..] == a[1..] + rest;
      LineLengthOfLine(a[1..], rest);
    } else {
      assert a + rest == rest;
    }
  }

  /** Two lines joined by a line feed split back into those two lines. */
  lemma SplitTwoLines(a: string, b: string)
    requires NoLineBreaks(a) && NoLineBreaks(b) && |b| > 0
    ensures SplitLines(a + "\n" + b) == [a, b]
  {
    var s := a + "\n" + b;
    LineLengthOfLine(a, "\n" + b);
    assert s == a + ("\n" + b);
    assert s[|a|] == '\n';
    assert s[..|a|] == a;
    assert s[|a| + 1..] == b;
    LineLengthOfLine(b, "");
    assert b + "" == b;
  }

  /** `s.replace(a, b)` for single characters. */
  function ReplaceChar(s: string, a: char, b: char): (r: string)
    ensures |r| == |s|
  {
    seq(|s|, i requires 0 <= i < |s| => if s[i] == a then b else s[i])
  }

  /** `s.title()`: a letter is upper-cased when it starts the text or follows a non-letter,
      and lower-cased otherwise; other characters are kept. */
  function Title(s: string): (r: string)
    ensures |r| == |s|
  {
    seq(|s|, i requires 0 <= i < |s| =>
      if i == 0 || !IsLetter(s[i - 1]) then ToUpper(s[i]) else ToLower(s[i]))
  }

  function DigitChar(d: nat): char
    requires d < 10
  {
    ('0' as int + d) as char
  }

  function NatToString(n: nat): (r: string)
    ensures |r| > 0
    decreases n
  {
    if n < 10 then [DigitChar(n)] else NatToString(n / 10) + [DigitChar(n % 10)]
  }

  /** `str(n)` */
  function IntToString(n: int): string {
    if n < 0 then "-" + NatToString(-n) else NatToString(n)
  }

  /** Concatenation of a sequence of strings, `"".join(parts)`. */
  function Concat(parts: seq<string>): string
    decreases |parts|
  {
    if |parts| == 0 then "" else Concat(parts[..|parts| - 1]) + parts[|parts| - 1]
  }

  /** Concatenation takes the first part off the front. */
  lemma {:induction false} ConcatCons(a: string, rest: seq<string>)
    ensures Concat([a] + rest) == a + Concat(rest)
    decreases |rest|
  {
    var xs := [a] + rest;
    if |rest| == 0 {
      assert xs[..0] == [];
    } else {
      var n := |rest| - 1;
      ConcatCons(a, rest[..n]);
      assert xs[..|xs| - 1] == [a] + rest[..n];
      assert xs[|xs| - 1] == rest[n];
    }
  }

  /** The concatenation begins with the first part. */
  lemma {:induction false} ConcatStartsWith(parts: seq<string>)
    requires |parts| > 0
    ensures StartsWith(Concat(parts), parts[0])
    decreases |parts|
  {
    if |parts| > 1 {
      var init := parts[..|parts| - 1];
      ConcatStartsWith(init);
      assert Concat(parts)[..|parts[0]|] == Concat(init)[..|parts[0]|];
    } else {
      assert parts[..0] == [];
    }
  }

  predicate IsDigit(c: char) { '0' <= c <= '9' }

  /** The number a string of decimal digits denotes, most significant digit first. */
  function DigitsValue(s: string): int
    decreases |s|
  {
    if |s| == 0 then 0
    else DigitsValue(s[..|s| - 1]) * 10 + (s[|s| - 1] as int - '0' as int)
  }

  /** `str(n)` for a natural number writes only digits, and reading them back gives `n`. */
  lemma {:induction false} NatToStringValue(n: nat)
    ensures forall i :: 0 <= i < |NatToString(n)| ==> IsDigit(NatToString(n)[i])
    ensures DigitsValue(NatToString(n)) == n
    decreases n
  {
    var s := NatToString(n);
    if n >= 10 {
      NatToStringValue(n / 10);
      assert s[..|s| - 1] == NatToString(n / 10);
    } else {
      assert s[..0] == [];
    }
  }
}
