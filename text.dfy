/**
 * The JavaScript string operations that the solver's two free-text predicates
 * are built from, on ASCII text: `toLowerCase`/`toUpperCase`, `trim`, `split`
 * on one separator character, `replace` of the first occurrence of a string,
 * and the global match of the regular expression /not on [a-z]+/g.
 */
module Text {
  import opened Wrappers

  predicate IsUpperLetter(c: char) { 'A' <= c <= 'Z' }

  predicate IsLowerLetter(c: char) { 'a' <= c <= 'z' }

  /** `toLowerCase` on one character; only the ASCII letters change. */
  function LowerChar(c: char): char
  {
    if IsUpperLetter(c) then (c as int + 32) as char else c
  }

  /** `toUpperCase` on one character; only the ASCII letters change. */
  function UpperChar(c: char): char
  {
    if IsLowerLetter(c) then (c as int - 32) as char else c
  }

  function Lower(s: string): string
  {
    seq(|s|, i requires 0 <= i < |s| => LowerChar(s[i]))
  }

  function Upper(s: string): string
  {
    seq(|s|, i requires 0 <= i < |s| => UpperChar(s[i]))
  }

  /** The characters `trim` removes: ECMAScript WhiteSpace and LineTerminator. */
  predicate IsSpace(c: char)
  {
    || c == '\t' || c == '\n' || c == '\U{B}' || c == '\U{C}' || c == '\r' || c == ' '
    || c == '\U{A0}' || c == '\U{1680}' || ('\U{2000}' <= c <= '\U{200A}')
    || c == '\U{2028}' || c == '\U{2029}' || c == '\U{202F}' || c == '\U{205F}'
    || c == '\U{3000}' || c == '\U{FEFF}'
  }

  /** Drops leading whitespace: the result is the suffix that starts at the first non-space. */
  function TrimStart(s: string): (r: string)
    ensures |r| <= |s| && r == s[|s| - |r|..]
    ensures forall i :: 0 <= i < |s| - |r| ==> IsSpace(s[i])
    ensures r == [] || !IsSpace(r[0])
    decreases |s|
  {
    if s != [] && IsSpace(s[0]) then TrimStart(s[1..]) else s
  }

  /** Drops trailing whitespace: the result is the prefix that ends at the last non-space. */
  function TrimEnd(s: string): (r: string)
    ensures |r| <= |s| && r == s[..|r|]
    ensures forall i :: |r| <= i < |s| ==> IsSpace(s[i])
    ensures r == [] || !IsSpace(r[|r| - 1])
    decreases |s|
  {
    if s != [] && IsSpace(s[|s| - 1]) then TrimEnd(s[..|s| - 1]) else s
  }

  /** `trim`: neither end of the result is whitespace, and text without whitespace is kept. */
  function Trim(s: string): (r: string)
    ensures |r| <= |s|
    ensures r == [] || (!IsSpace(r[0]) && !IsSpace(r[|r| - 1]))
    ensures (forall i :: 0 <= i < |s| ==> !IsSpace(s[i])) ==> r == s
  {
    TrimEnd(TrimStart(s))
  }

  /** Every character is whitespace. */
  predicate AllSpace(s: string)
  {
    forall i :: 0 <= i < |s| ==> IsSpace(s[i])
  }

  /** Neither end is whitespace; inner whitespace is allowed. */
  predicate Unpadded(s: string)
  {
    s == [] || (!IsSpace(s[0]) && !IsSpace(s[|s| - 1]))
  }

  /** `trim` removes exactly the whitespace around a text whose ends are not whitespace. */
  lemma TrimPadded(lp: string, c: string, rp: string)
    requires AllSpace(lp) && AllSpace(rp) && Unpadded(c)
    ensures Trim(lp + c + rp) == c
  {
    if c == [] {
      assert lp + c + rp == (lp + rp) + [];
      TrimStartPad(lp + rp, []);
    } else {
      assert lp + c + rp == lp + (c + rp);
      TrimStartPad(lp, c + rp);
      TrimEndPad(c, rp);
    }
  }

  /** Whitespace in front of a text that does not start with whitespace is dropped by `TrimStart`. */
  lemma {:induction false} TrimStartPad(lp: string, x: string)
    requires AllSpace(lp) && (x == [] || !IsSpace(x[0]))
    ensures TrimStart(lp + x) == x
    decreases |lp|
  {
    if lp != [] {
      assert (lp + x)[0] == lp[0];
      assert (lp + x)[1..] == lp[1..] + x;
      TrimStartPad(lp[1..], x);
    } else {
      assert lp + x == x;
    }
  }

  /** Whitespace behind a text that does not end with whitespace is dropped by `TrimEnd`. */
  lemma {:induction false} TrimEndPad(x: string, rp: string)
    requires AllSpace(rp) && (x == [] || !IsSpace(x[|x| - 1]))
    ensures TrimEnd(x + rp) == x
    decreases |rp|
  {
    if rp != [] {
      var s := x + rp;
      assert s[|s| - 1] == rp[|rp| - 1];
      assert s[..|s| - 1] == x + rp[..|rp| - 1];
      TrimEndPad(x, rp[..|rp| - 1]);
    } else {
      assert x + rp == x;
    }
  }

  /** The whitespace `trim` removes in front. */
  function LeadingSpace(s: string): string
  {
    s[..|s| - |TrimStart(s)|]
  }

  /** The whitespace `trim` removes behind. */
  function TrailingSpace(s: string): string
  {
    TrimStart(s)[|Trim(s)|..]
  }

  /** Every text is its trimmed form with only whitespace around it. */
  lemma TrimUnpads(s: string)
    ensures Unpadded(Trim(s))
    ensures AllSpace(LeadingSpace(s)) && AllSpace(TrailingSpace(s))
    ensures s == LeadingSpace(s) + Trim(s) + TrailingSpace(s)
  {
    var t := TrimStart(s);
    var r := TrimEnd(t);
    var lp, rp := LeadingSpace(s), TrailingSpace(s);
    SplitAt(s, |s| - |t|);
    SplitAt(t, |r|);
    assert AllSpace(rp) by {
      forall i | 0 <= i < |rp| ensures IsSpace(rp[i])
      {
        assert rp[i] == t[|r| + i];
      }
    }
    Regroup(lp, r, rp);
  }

  lemma SplitAt<T>(s: seq<T>, n: nat)
    requires n <= |s|
    ensures s == s[..n] + s[n..]
  {
  }

  lemma Regroup<T>(a: seq<T>, b: seq<T>, c: seq<T>)
    ensures a + (b + c) == a + b + c
  {
  }

  /** `split(sep)` with a one-character separator: the pieces between the separators, in order. */
  function Split(s: string, sep: char): (parts: seq<string>)
    ensures |parts| >= 1
    ensures forall p :: p in parts ==> sep !in p
    decreases |s|
  {
    if s == [] then [""]
    else
      var rest := Split(s[1..], sep);
      if s[0] == sep then [""] + rest
      else [[s[0]] + rest[0]] + rest[1..]
  }

  /** `join(sep)`: the pieces with one separator between each two. */
  function Join(parts: seq<string>, sep: char): string
  {
    if |parts| == 0 then ""
    else if |parts| == 1 then parts[0]
    else parts[0] + [sep] + Join(parts[1..], sep)
  }

  /** Joining the pieces of a split gives the original text back. */
  lemma {:induction false} JoinSplit(s: string, sep: char)
    ensures Join(Split(s, sep), sep) == s
    decreases |s|
  {
    if s != [] {
      JoinSplit(s[1..], sep);
      var rest := Split(s[1..], sep);
      if s[0] != sep {
        if |rest| == 1 {
          assert Split(s, sep) == [[s[0]] + rest[0]];
        } else {
          assert Split(s, sep) == [[s[0]] + rest[0]] + rest[1..];
          assert rest == [rest[0]] + rest[1..];
          assert Join(rest, sep) == rest[0] + [sep] + Join(rest[1..], sep);
        }
      } else {
        assert Split(s, sep) == [""] + rest;
        assert ([""] + rest)[1..] == rest;
      }
    }
  }

  lemma {:induction false} SplitNoSeparator(a: string, sep: char)
    requires sep !in a
    ensures Split(a, sep) == [a]
    decreases |a|
  {
    if a != [] {
      assert sep !in a[1..] by { assert forall c :: c in a[1..] ==> c in a; }
      SplitNoSeparator(a[1..], sep);
      assert [a[0]] + a[1..] == a;
    }
  }

  lemma {:induction false} SplitAfterPiece(a: string, b: string, sep: char)
    requires sep !in a
    ensures Split(a + [sep] + b, sep) == [a] + Split(b, sep)
    decreases |a|
  {
    var s := a + [sep] + b;
    if a == [] {
      assert s == [sep] + b;
      assert s[1..] == b;
    } else {
      assert sep !in a[1..] by { assert forall c :: c in a[1..] ==> c in a; }
      SplitAfterPiece(a[1..], b, sep);
      assert s[1..] == a[1..] + [sep] + b;
      assert [a[0]] + a[1..] == a;
    }
  }

  /** Splitting a join of separator-free pieces gives the pieces back. */
  lemma {:induction false} SplitJoin(parts: seq<string>, sep: char)
    requires |parts| >= 1
    requires forall p :: p in parts ==> sep !in p
    ensures Split(Join(parts, sep), sep) == parts
    decreases |parts|
  {
    if |parts| == 1 {
      SplitNoSeparator(parts[0], sep);
    } else {
      assert parts[0] in parts;
      assert forall p :: p in parts[1..] ==> p in parts;
      SplitJoin(parts[1..], sep);
      SplitAfterPiece(parts[0], Join(parts[1..], sep), sep);
      assert parts == [parts[0]] + parts[1..];
    }
  }

  predicate OccursAt(s: string, p: string, i: nat)
  {
    i + |p| <= |s| && s[i..i + |p|] == p
  }

  /** `indexOf(p, from)`: the first position at or after `from` where `p` occurs, if any. */
  function IndexOf(s: string, p: string, from: nat): (r: Option<nat>)
    ensures r.Some? ==> from <= r.value && OccursAt(s, p, r.value)
    ensures forall j :: from <= j && (r.None? || j < r.value) ==> !OccursAt(s, p, j)
    decreases |s| - from
  {
    if from + |p| > |s| then None
    else if OccursAt(s, p, from) then Some(from)
    else IndexOf(s, p, from + 1)
  }

  /** `replace(p, rep)` with a string pattern: only the first occurrence is replaced. */
  function ReplaceFirst(s: string, p: string, rep: string): string
  {
    match IndexOf(s, p, 0)
    case None => s
    case Some(i) => s[..i] + rep + s[i + |p|..]
  }

  /** Removing the first occurrence of a prefix the text starts with leaves the rest of the text. */
  lemma ReplaceLeadingPrefix(s: string, p: string)
    requires OccursAt(s, p, 0)
    ensures ReplaceFirst(s, p, "") == s[|p|..]
  {
    var r := IndexOf(s, p, 0);
    assert r.Some? && r.value == 0;
  }

  /*
   * The global match of /not on [a-z]+/ on a string. A clause starts at `i`
   * when the literal "not on " is there and a lower-case letter follows it;
   * the greedy [a-z]+ then runs to the end of the letters.
   */

  const ClausePrefix: string := "not on "

  predicate ClauseAt(t: string, i: nat)
  {
    && i + |ClausePrefix| < |t|
    && t[i] == 'n' && t[i + 1] == 'o' && t[i + 2] == 't' && t[i + 3] == ' '
    && t[i + 4] == 'o' && t[i + 5] == 'n' && t[i + 6] == ' '
    && IsLowerLetter(t[i + |ClausePrefix|])
  }

  /** A clause start is where the literal "not on " occurs with a lower-case letter after it. */
  lemma ClauseAtIsPrefixOccurrence(t: string, i: nat)
    ensures ClauseAt(t, i) <==> OccursAt(t, ClausePrefix, i) && i + |ClausePrefix| < |t| && IsLowerLetter(t[i + |ClausePrefix|])
  {
    if OccursAt(t, ClausePrefix, i) {
      assert t[i..i + |ClausePrefix|] == ClausePrefix;
      var w := t[i..i + |ClausePrefix|];
      assert w[0] == 'n' && w[1] == 'o' && w[2] == 't' && w[3] == ' ';
      assert w[4] == 'o' && w[5] == 'n' && w[6] == ' ';
    }
  }

  /** The end of the longest run of lower-case letters that starts at `j`. */
  function RunEnd(t: string, j: nat): (e: nat)
    requires j <= |t|
    ensures j <= e <= |t|
    ensures forall k :: j <= k < e ==> IsLowerLetter(t[k])
    ensures e == |t| || !IsLowerLetter(t[e])
    decreases |t| - j
  {
    if j < |t| && IsLowerLetter(t[j]) then RunEnd(t, j + 1) else j
  }

  /** Where the match of a clause that starts at `i` ends; it always holds at least one letter. */
  function ClauseEnd(t: string, i: nat): (e: nat)
    requires ClauseAt(t, i)
    ensures i + |ClausePrefix| < e <= |t|
  {
    RunEnd(t, i + |ClausePrefix|)
  }

  /** The day word of the clause that starts at `i`: the letters after "not on ". */
  function ClauseWord(t: string, i: nat): (w: string)
    requires ClauseAt(t, i)
    ensures |w| > 0 && forall k :: 0 <= k < |w| ==> IsLowerLetter(w[k])
  {
    t[i + |ClausePrefix|..ClauseEnd(t, i)]
  }

  /** Where one match lies in the text: from `start` up to, not including, `end`. */
  datatype Span = Span(start: nat, end: nat)

  /** The span is the whole match of a clause. */
  ghost predicate IsClauseSpan(t: string, sp: Span)
  {
    ClauseAt(t, sp.start) && sp.end == ClauseEnd(t, sp.start)
  }

  /**
   * The matches a global regular-expression match reports, scanning from `i`:
   * the leftmost clause, then the leftmost clause after the end of that match,
   * and so on.
   */
  function MatchSpans(t: string, i: nat): (ss: seq<Span>)
    requires i <= |t|
    ensures forall k :: 0 <= k < |ss| ==> i <= ss[k].start < ss[k].end <= |t| && IsClauseSpan(t, ss[k])
    decreases |t| - i
  {
    if i == |t| then []
    else if ClauseAt(t, i) then [Span(i, ClauseEnd(t, i))] + MatchSpans(t, ClauseEnd(t, i))
    else MatchSpans(t, i + 1)
  }

  /** Position `j` lies inside one of the spans. */
  ghost predicate Covered(ss: seq<Span>, j: nat)
  {
    exists k :: 0 <= k < |ss| && ss[k].start <= j < ss[k].end
  }

  /** Every span is the match of a clause that starts at or after `from`. */
  ghost predicate SpansAreClauses(t: string, from: nat, ss: seq<Span>)
  {
    forall k :: 0 <= k < |ss| ==> from <= ss[k].start && IsClauseSpan(t, ss[k])
  }

  /** Each span ends before any later one starts. */
  ghost predicate NonOverlapping(ss: seq<Span>)
  {
    forall k1, k2 :: 0 <= k1 < k2 < |ss| ==> ss[k1].end <= ss[k2].start
  }

  /** Every clause that starts at or after `from` is reported, or lies inside an earlier match. */
  ghost predicate CoversClauses(t: string, from: nat, ss: seq<Span>)
  {
    forall j :: from <= j && ClauseAt(t, j) ==> Covered(ss, j)
  }

  /** What a leftmost, non-overlapping scan from `from` reports. */
  ghost predicate LeftmostMatches(t: string, from: nat, ss: seq<Span>)
  {
    SpansAreClauses(t, from, ss) && NonOverlapping(ss) && CoversClauses(t, from, ss)
  }

  lemma ConsNonOverlapping(sp: Span, rest: seq<Span>)
    requires NonOverlapping(rest)
    requires forall k :: 0 <= k < |rest| ==> sp.end <= rest[k].start
    ensures NonOverlapping([sp] + rest)
  {
    var ss := [sp] + rest;
    forall k1, k2 | 0 <= k1 < k2 < |ss| ensures ss[k1].end <= ss[k2].start
    {
      assert ss[k2] == rest[k2 - 1];
      if k1 > 0 {
        assert ss[k1] == rest[k1 - 1];
      }
    }
  }

  lemma TailNonOverlapping(ss: seq<Span>)
    requires |ss| > 0 && NonOverlapping(ss)
    ensures NonOverlapping(ss[1..])
  {
    var rest := ss[1..];
    forall k1, k2 | 0 <= k1 < k2 < |rest| ensures rest[k1].end <= rest[k2].start
    {
      assert rest[k1] == ss[k1 + 1];
      assert rest[k2] == ss[k2 + 1];
    }
  }

  lemma CoveredAfterHead(sp: Span, rest: seq<Span>, j: nat)
    requires Covered(rest, j)
    ensures Covered([sp] + rest, j)
  {
    var k :| 0 <= k < |rest| && rest[k].start <= j < rest[k].end;
    assert ([sp] + rest)[k + 1] == rest[k];
  }

  lemma CoveredInTail(ss: seq<Span>, j: nat)
    requires |ss| > 0 && Covered(ss, j) && ss[0].end <= j
    ensures Covered(ss[1..], j)
  {
    var k :| 0 <= k < |ss| && ss[k].start <= j < ss[k].end;
    assert k != 0;
    assert ss[1..][k - 1] == ss[k];
  }

  /** A match at `i` followed by a leftmost scan from its end is a leftmost scan from `i`. */
  lemma LeftmostAfterClause(t: string, i: nat, rest: seq<Span>)
    requires ClauseAt(t, i)
    requires LeftmostMatches(t, ClauseEnd(t, i), rest)
    ensures LeftmostMatches(t, i, [Span(i, ClauseEnd(t, i))] + rest)
  {
    var e := ClauseEnd(t, i);
    var ss := [Span(i, e)] + rest;
    ConsNonOverlapping(Span(i, e), rest);
    forall j | i <= j && ClauseAt(t, j) ensures Covered(ss, j)
    {
      if j < e {
        assert ss[0] == Span(i, e);
      } else {
        CoveredAfterHead(Span(i, e), rest, j);
      }
    }
    forall k | 0 <= k < |ss| ensures i <= ss[k].start && IsClauseSpan(t, ss[k])
    {
      if k > 0 {
        assert ss[k] == rest[k - 1];
      }
    }
  }

  /** A leftmost scan from `i + 1` is one from `i` when no clause starts at `i`. */
  lemma LeftmostAfterSkip(t: string, i: nat, ss: seq<Span>)
    requires !ClauseAt(t, i)
    requires LeftmostMatches(t, i + 1, ss)
    ensures LeftmostMatches(t, i, ss)
  {
    forall j | i <= j && ClauseAt(t, j) ensures Covered(ss, j)
    {
      assert i + 1 <= j;
    }
  }

  lemma LeftmostAtEnd(t: string)
    ensures LeftmostMatches(t, |t|, [])
  {
    forall j | |t| <= j ensures !ClauseAt(t, j) { }
  }

  /** The scan reports leftmost, non-overlapping matches. */
  lemma {:induction false} MatchSpansLeftmost(t: string, i: nat)
    requires i <= |t|
    ensures LeftmostMatches(t, i, MatchSpans(t, i))
    decreases |t| - i
  {
    if i == |t| {
      assert MatchSpans(t, i) == [];
      LeftmostAtEnd(t);
    } else if ClauseAt(t, i) {
      var e := ClauseEnd(t, i);
      assert MatchSpans(t, i) == [Span(i, e)] + MatchSpans(t, e);
      MatchSpansLeftmost(t, e);
      LeftmostAfterClause(t, i, MatchSpans(t, e));
    } else {
      assert MatchSpans(t, i) == MatchSpans(t, i + 1);
      MatchSpansLeftmost(t, i + 1);
      LeftmostAfterSkip(t, i, MatchSpans(t, i + 1));
    }
  }

  /** With no clause at or after `i`, the scan from `i` reports nothing. */
  lemma {:induction false} NoClauseNoMatch(t: string, i: nat)
    requires i <= |t|
    requires CoversClauses(t, i, [])
    ensures MatchSpans(t, i) == []
    decreases |t| - i
  {
    if i < |t| {
      assert !Covered([], i);
      NoClauseNoMatch(t, i + 1);
    }
  }

  /** The scan passes over positions where no clause starts. */
  lemma {:induction false} SkipToClause(t: string, i: nat, s: nat)
    requires i <= s <= |t|
    requires forall j :: i <= j < s ==> !ClauseAt(t, j)
    ensures MatchSpans(t, i) == MatchSpans(t, s)
    decreases s - i
  {
    if i < s {
      assert !ClauseAt(t, i);
      assert MatchSpans(t, i) == MatchSpans(t, i + 1);
      SkipToClause(t, i + 1, s);
    }
  }

  /** Nothing before the first of non-overlapping spans is covered by them. */
  lemma CoveredFromFirst(ss: seq<Span>, j: nat)
    requires |ss| > 0 && ss[0].start < ss[0].end
    requires NonOverlapping(ss) && Covered(ss, j)
    ensures ss[0].start <= j
  {
    var k :| 0 <= k < |ss| && ss[k].start <= j < ss[k].end;
    assert k > 0 ==> ss[0].end <= ss[k].start;
  }

  /** The first span of a leftmost scan is where the scan from `i` finds its first match. */
  lemma LeftmostHead(t: string, i: nat, qs: seq<Span>)
    requires i <= |t| && |qs| > 0
    requires LeftmostMatches(t, i, qs)
    ensures qs[0].end <= |t|
    ensures MatchSpans(t, i) == [qs[0]] + MatchSpans(t, qs[0].end)
  {
    var q := qs[0];
    assert IsClauseSpan(t, q);
    forall j | i <= j && ClauseAt(t, j) ensures q.start <= j
    {
      assert Covered(qs, j);
      CoveredFromFirst(qs, j);
    }
    SkipToClause(t, i, q.start);
    assert MatchSpans(t, q.start) == [q] + MatchSpans(t, q.end);
  }

  /** The rest of a leftmost scan is a leftmost scan from the end of its first match. */
  lemma LeftmostTail(t: string, i: nat, qs: seq<Span>)
    requires |qs| > 0
    requires LeftmostMatches(t, i, qs)
    ensures LeftmostMatches(t, qs[0].end, qs[1..])
  {
    var q := qs[0];
    var rest := qs[1..];
    forall j | q.end <= j && ClauseAt(t, j) ensures Covered(rest, j)
    {
      assert Covered(qs, j);
      CoveredInTail(qs, j);
    }
    forall k | 0 <= k < |rest| ensures q.end <= rest[k].start && IsClauseSpan(t, rest[k])
    {
      assert rest[k] == qs[k + 1];
    }
    TailNonOverlapping(qs);
  }

  /** Only one list of spans is leftmost and non-overlapping, so the scan is exactly the regular-expression match. */
  lemma {:induction false} LeftmostMatchesUnique(t: string, i: nat, qs: seq<Span>)
    requires i <= |t|
    requires LeftmostMatches(t, i, qs)
    ensures qs == MatchSpans(t, i)
    decreases |qs|
  {
    if qs == [] {
      NoClauseNoMatch(t, i);
    } else {
      LeftmostHead(t, i, qs);
      LeftmostTail(t, i, qs);
      LeftmostMatchesUnique(t, qs[0].end, qs[1..]);
      assert qs == [qs[0]] + qs[1..];
    }
  }

  /** The words of the clauses the scan matches, in order. */
  function MatchedWords(t: string): seq<string>
  {
    var ss := MatchSpans(t, 0);
    seq(|ss|, k requires 0 <= k < |ss| => ClauseWord(t, ss[k].start))
  }

  lemma CoveringSpan(ss: seq<Span>, j: nat) returns (k: nat)
    requires Covered(ss, j)
    ensures k < |ss| && ss[k].start <= j < ss[k].end
  {
    k :| 0 <= k < |ss| && ss[k].start <= j < ss[k].end;
  }

  /** No match of a clause that starts before `i` runs past `i`. */
  ghost predicate Unswallowed(t: string, i: nat)
  {
    forall j :: 0 <= j < i && ClauseAt(t, j) ==> ClauseEnd(t, j) <= i
  }

  /** A match that covers an unswallowed clause start begins exactly there. */
  lemma CoveringMatchStartsThere(t: string, sp: Span, i: nat)
    requires IsClauseSpan(t, sp) && sp.start <= i < sp.end
    requires Unswallowed(t, i)
    ensures sp.start == i
  {
  }

  lemma MatchedWordAt(t: string, k: nat)
    requires k < |MatchSpans(t, 0)|
    ensures MatchedWords(t)[k] == ClauseWord(t, MatchSpans(t, 0)[k].start)
  {
  }

  /** A clause that no earlier clause's match swallows is matched, so its word is reported. */
  lemma UnswallowedClauseMatched(t: string, i: nat)
    requires ClauseAt(t, i)
    requires Unswallowed(t, i)
    ensures ClauseWord(t, i) in MatchedWords(t)
  {
    var ss := MatchSpans(t, 0);
    var k := ScanCovers(t, i);
    CoveringMatchStartsThere(t, ss[k], i);
    MatchedWordAt(t, k);
  }

  /** Every clause start lies inside some match of the scan from the start of the text. */
  lemma ScanCovers(t: string, i: nat) returns (k: nat)
    requires ClauseAt(t, i)
    ensures k < |MatchSpans(t, 0)| && MatchSpans(t, 0)[k].start <= i < MatchSpans(t, 0)[k].end
  {
    MatchSpansLeftmost(t, 0);
    k := CoveringSpan(MatchSpans(t, 0), i);
  }

  /** `text.match(/not on [a-z]+/g) || []`: the matched substrings, in order. */
  function MatchAll(t: string): seq<string>
  {
    var ss := MatchSpans(t, 0);
    seq(|ss|, k requires 0 <= k < |ss| => t[ss[k].start..ss[k].end])
  }
}
