/**
 * The solver's free-text predicates and its scoring: whether an instructor's
 * "not on <day>" preferences allow a time slot, whether an instructor's
 * comma-separated qualification list names a course, whether a room's type
 * suits a course, and the soft score of a candidate.
 */
module Preferences {
  import opened Wrappers
  import opened Text
  import opened Entities
  import opened Sorting

  /** Each matched clause with "not on " replaced away and the rest trimmed. */
  function ForbiddenDays(text: string): seq<string>
  {
    var ms := MatchAll(text);
    seq(|ms|, k requires 0 <= k < |ms| => Trim(ReplaceFirst(ms[k], ClausePrefix, "")))
  }

  /**
   * `instructorAllowsTimeslot`: a null or empty preference allows every slot;
   * otherwise the slot is refused when a forbidden day equals its day, ignoring case.
   */
  function InstructorAllowsTimeslot(instr: Instructor, ts: TimeSlot): (allowed: bool)
    ensures instr.preferredSlots == None || instr.preferredSlots == Some("") ==> allowed
  {
    match instr.preferredSlots
    case None => true
    case Some(slots) =>
      if slots == "" then true
      else
        var forbids := ForbiddenDays(Lower(slots));
        !(exists f :: f in forbids && Lower(f) == Lower(ts.day))
  }

  /** The lower-cased preference text the clauses are read from. */
  function PreferenceText(instr: Instructor): string
  {
    match instr.preferredSlots
    case None => ""
    case Some(slots) => Lower(slots)
  }

  lemma LowerKeepsLowerLetters(s: string)
    requires forall i :: 0 <= i < |s| ==> IsLowerLetter(s[i])
    ensures Lower(s) == s
  {
  }

  /** A matched clause with its prefix replaced away and trimmed is the clause's word. */
  lemma MatchedClauseWord(t: string, sp: Span)
    requires IsClauseSpan(t, sp)
    ensures Trim(ReplaceFirst(t[sp.start..sp.end], ClausePrefix, "")) == ClauseWord(t, sp.start)
  {
    var m := t[sp.start..sp.end];
    ClauseAtIsPrefixOccurrence(t, sp.start);
    assert m[..|ClausePrefix|] == t[sp.start..sp.start + |ClausePrefix|];
    assert OccursAt(m, ClausePrefix, 0);
    ReplaceLeadingPrefix(m, ClausePrefix);
    var w := ClauseWord(t, sp.start);
    assert m[|ClausePrefix|..] == w;
    LettersAreNotSpaces(w);
  }

  lemma LettersAreNotSpaces(w: string)
    requires forall i :: 0 <= i < |w| ==> IsLowerLetter(w[i])
    ensures forall i :: 0 <= i < |w| ==> !IsSpace(w[i])
  {
  }

  /** The forbidden days are exactly the words of the matched clauses, in order. */
  lemma ForbiddenDaysAreClauseWords(t: string)
    ensures ForbiddenDays(t) == MatchedWords(t)
  {
    var ss := MatchSpans(t, 0);
    var ms := MatchAll(t);
    forall k | 0 <= k < |ss| ensures ForbiddenDays(t)[k] == MatchedWords(t)[k]
    {
      assert ms[k] == t[ss[k].start..ss[k].end];
      MatchedClauseWord(t, ss[k]);
    }
  }

  /**
   * The slot is allowed exactly when the preference is null or empty, or no clause
   * the scan matches names the slot's day, ignoring case.
   */
  lemma AllowsTimeslotIff(instr: Instructor, ts: TimeSlot)
    ensures InstructorAllowsTimeslot(instr, ts) <==>
      || instr.preferredSlots == None
      || instr.preferredSlots == Some("")
      || Lower(ts.day) !in MatchedWords(PreferenceText(instr))
  {
    var t := PreferenceText(instr);
    if instr.preferredSlots.Some? && instr.preferredSlots.value != "" {
      ForbiddenDaysAreClauseWords(t);
      MatchedWordsAreLower(t);
      FoldedMember(MatchedWords(t), Lower(ts.day));
    }
  }

  /** Every matched word is already lower case. */
  lemma MatchedWordsAreLower(t: string)
    ensures forall k :: 0 <= k < |MatchedWords(t)| ==> Lower(MatchedWords(t)[k]) == MatchedWords(t)[k]
  {
    var words := MatchedWords(t);
    forall k | 0 <= k < |words| ensures Lower(words[k]) == words[k]
    {
      LowerKeepsLowerLetters(words[k]);
    }
  }

  /** Among words already in lower case, one folds to `d` exactly when `d` is one of them. */
  lemma FoldedMember(words: seq<string>, d: string)
    requires forall k :: 0 <= k < |words| ==> Lower(words[k]) == words[k]
    ensures (exists f :: f in words && Lower(f) == d) <==> d in words
  {
    if d in words {
      var k :| 0 <= k < |words| && words[k] == d;
      assert Lower(words[k]) == d;
    }
  }

  /**
   * A "not on <day>" clause that no earlier clause's match swallows refuses that day,
   * whatever the case of the preference text and of the slot's day.
   */
  lemma UnswallowedClauseForbids(instr: Instructor, ts: TimeSlot, i: nat)
    requires instr.preferredSlots.Some?
    requires ClauseAt(PreferenceText(instr), i)
    requires Unswallowed(PreferenceText(instr), i)
    requires ClauseWord(PreferenceText(instr), i) == Lower(ts.day)
    ensures !InstructorAllowsTimeslot(instr, ts)
  {
    UnswallowedClauseMatched(PreferenceText(instr), i);
    AllowsTimeslotIff(instr, ts);
  }

  /** Text without any "not on <letter>" in it refuses no day. */
  lemma NoClauseAllows(instr: Instructor, ts: TimeSlot)
    requires forall j :: !ClauseAt(PreferenceText(instr), j)
    ensures InstructorAllowsTimeslot(instr, ts)
  {
    var t := PreferenceText(instr);
    NoClauseNoMatch(t, 0);
    AllowsTimeslotIff(instr, ts);
  }

  /** The items of a qualification list: split on commas, trimmed and upper-cased. */
  function QualifiedItems(list: string): seq<string>
  {
    var items := Split(list, ',');
    seq(|items|, k requires 0 <= k < |items| => Upper(Trim(items[k])))
  }

  /**
   * `instructorQualified`: false for a null or empty list; otherwise true when some
   * item of the list equals the upper-cased course code. Only `course.code` is read,
   * so the code is what is passed.
   */
  function InstructorQualified(instr: Instructor, courseCode: string): (qualified: bool)
    ensures qualified ==> instr.qualifiedCourses.Some? && instr.qualifiedCourses.value != ""
  {
    match instr.qualifiedCourses
    case None => false
    case Some(list) => if list == "" then false else Upper(courseCode) in QualifiedItems(list)
  }

  /**
   * `items` is a list of codes as people type them: item `k` is `codes[k]` with
   * whitespace on either side, and no code has a comma or whitespace at its ends
   * (spaces inside a code are allowed).
   */
  ghost predicate PaddedCodes(items: seq<string>, lpads: seq<string>, codes: seq<string>, rpads: seq<string>)
  {
    && |items| == |lpads| == |codes| == |rpads|
    && forall k :: 0 <= k < |items| ==>
         && items[k] == lpads[k] + codes[k] + rpads[k]
         && AllSpace(lpads[k]) && AllSpace(rpads[k])
         && Unpadded(codes[k]) && ',' !in codes[k]
  }

  /** Whitespace around a comma-free code adds no comma. */
  lemma PaddedHasNoComma(lp: string, c: string, rp: string)
    requires AllSpace(lp) && AllSpace(rp) && ',' !in c
    ensures ',' !in lp + c + rp
  {
    var s := lp + c + rp;
    forall i | 0 <= i < |s| ensures s[i] != ','
    {
      if i < |lp| {
        assert s[i] == lp[i];
      } else if i < |lp| + |c| {
        assert s[i] == c[i - |lp|];
      } else {
        assert s[i] == rp[i - |lp| - |c|];
      }
    }
  }

  /** Such a list, joined with commas, has the upper-cased codes as its items: the padding is trimmed away. */
  lemma ItemsOfJoinedCodes(items: seq<string>, lpads: seq<string>, codes: seq<string>, rpads: seq<string>)
    requires |items| >= 1 && PaddedCodes(items, lpads, codes, rpads)
    ensures |QualifiedItems(Join(items, ','))| == |codes|
    ensures forall k :: 0 <= k < |codes| ==> QualifiedItems(Join(items, ','))[k] == Upper(codes[k])
  {
    forall p | p in items ensures ',' !in p
    {
      var k :| 0 <= k < |items| && items[k] == p;
      PaddedHasNoComma(lpads[k], codes[k], rpads[k]);
    }
    SplitJoin(items, ',');
    forall k | 0 <= k < |codes| ensures Trim(items[k]) == codes[k]
    {
      TrimPadded(lpads[k], codes[k], rpads[k]);
    }
  }

  /**
   * For such a list the instructor is qualified exactly when the list is not empty
   * and one of the codes equals the course code, ignoring case.
   */
  lemma QualifiedByListedCode(instr: Instructor, items: seq<string>, lpads: seq<string>, codes: seq<string>, rpads: seq<string>, courseCode: string)
    requires |items| >= 1 && PaddedCodes(items, lpads, codes, rpads)
    requires instr.qualifiedCourses == Some(Join(items, ','))
    ensures InstructorQualified(instr, courseCode) <==>
      Join(items, ',') != "" && exists k :: 0 <= k < |codes| && Upper(codes[k]) == Upper(courseCode)
  {
    var list := Join(items, ',');
    ItemsOfJoinedCodes(items, lpads, codes, rpads);
    var uppers := QualifiedItems(list);
    assert InstructorQualified(instr, courseCode) == (list != "" && Upper(courseCode) in uppers);
    if Upper(courseCode) in uppers {
      var k :| 0 <= k < |uppers| && uppers[k] == Upper(courseCode);
      assert Upper(codes[k]) == Upper(courseCode);
    }
    if exists k :: 0 <= k < |codes| && Upper(codes[k]) == Upper(courseCode) {
      var k :| 0 <= k < |codes| && Upper(codes[k]) == Upper(courseCode);
      assert uppers[k] == Upper(codes[k]);
    }
  }

  /**
   * Every qualification list can be read that way: its comma-separated items, each
   * split into the whitespace `trim` removes and the code it keeps.
   */
  lemma EveryListPadded(list: string)
    ensures exists items, lpads, codes, rpads ::
      |items| >= 1 && PaddedCodes(items, lpads, codes, rpads) && Join(items, ',') == list
  {
    var items := Split(list, ',');
    JoinSplit(list, ',');
    var lpads := seq(|items|, k requires 0 <= k < |items| => LeadingSpace(items[k]));
    var codes := seq(|items|, k requires 0 <= k < |items| => Trim(items[k]));
    var rpads := seq(|items|, k requires 0 <= k < |items| => TrailingSpace(items[k]));
    forall k | 0 <= k < |items|
      ensures items[k] == lpads[k] + codes[k] + rpads[k]
      ensures AllSpace(lpads[k]) && AllSpace(rpads[k]) && Unpadded(codes[k]) && ',' !in codes[k]
    {
      assert items[k] in items;
      PaddedItem(items[k]);
    }
    assert PaddedCodes(items, lpads, codes, rpads);
  }

  /** One comma-free item is its trimmed code, still comma-free, with whitespace around it. */
  lemma PaddedItem(item: string)
    requires ',' !in item
    ensures item == LeadingSpace(item) + Trim(item) + TrailingSpace(item)
    ensures AllSpace(LeadingSpace(item)) && AllSpace(TrailingSpace(item))
    ensures Unpadded(Trim(item)) && ',' !in Trim(item)
  {
    TrimUnpads(item);
    var lp, c := LeadingSpace(item), Trim(item);
    forall i | 0 <= i < |c| ensures c[i] != ','
    {
      assert c[i] == item[|lp| + i];
    }
  }

  /**
   * The room-type test of the domain loop: a room is skipped only when both types
   * are non-empty and differ after upper-casing.
   */
  predicate TypeCompatible(courseType: string, roomType: string)
  {
    !(courseType != "" && roomType != "" && Upper(courseType) != Upper(roomType))
  }

  /** A candidate with the score `scoreCandidate` gives it. */
  datatype Scored = Scored(cand: Candidate, score: int)

  function ScoreOf(s: Scored): int { s.score }

  /** `scoreCandidate`: -5 for a qualified instructor, 0 otherwise; lower is better. */
  function ScoreCandidate(courseCode: string, cand: Candidate): (score: int)
    ensures score == -5 || score == 0
    ensures score < 0 <==> InstructorQualified(cand.instructor, courseCode)
  {
    var score := 0;
    if InstructorQualified(cand.instructor, courseCode) then score - 5 else score
  }

  /** `domain.map(d => ({ ...d, score }))`: each candidate with its score, in domain order. */
  function ScoreAll(courseCode: string, domain: seq<Candidate>): seq<Scored>
  {
    seq(|domain|, k requires 0 <= k < |domain| => Scored(domain[k], ScoreCandidate(courseCode, domain[k])))
  }

  /** The order in which the search tries a course's candidates: stable, by ascending score. */
  function TryOrder(courseCode: string, domain: seq<Candidate>): seq<Scored>
  {
    SortBy(ScoreAll(courseCode, domain), ScoreOf)
  }

  /**
   * Every candidate with a qualified instructor is tried before any other, and each
   * group keeps the domain order; nothing is added or lost.
   */
  lemma TryOrderQualifiedFirst(courseCode: string, domain: seq<Candidate>)
    ensures var scored := ScoreAll(courseCode, domain);
      && TryOrder(courseCode, domain) == WithKey(scored, ScoreOf, -5) + WithKey(scored, ScoreOf, 0)
      && (forall s :: s in WithKey(scored, ScoreOf, -5) <==> s in scored && InstructorQualified(s.cand.instructor, courseCode))
      && (forall s :: s in WithKey(scored, ScoreOf, 0) <==> s in scored && !InstructorQualified(s.cand.instructor, courseCode))
      && multiset(TryOrder(courseCode, domain)) == multiset(scored)
  {
    var scored := ScoreAll(courseCode, domain);
    assert forall s :: s in scored ==> ScoreOf(s) == -5 || ScoreOf(s) == 0;
    TwoKeySort(scored, ScoreOf, -5, 0);
    WithKeyMembers(scored, ScoreOf, -5);
    WithKeyMembers(scored, ScoreOf, 0);
  }

  /** The search tries each candidate of the domain, and nothing else. */
  lemma TryOrderCandidates(courseCode: string, domain: seq<Candidate>)
    ensures var sorted := TryOrder(courseCode, domain);
      && (forall j :: 0 <= j < |sorted| ==> sorted[j].cand in domain)
      && (forall c :: c in domain ==> exists j :: 0 <= j < |sorted| && sorted[j].cand == c)
  {
    var scored := ScoreAll(courseCode, domain);
    var sorted := TryOrder(courseCode, domain);
    assert multiset(sorted) == multiset(scored);
    forall j | 0 <= j < |sorted| ensures sorted[j].cand in domain
    {
      assert sorted[j] in multiset(scored);
      var k :| 0 <= k < |scored| && scored[k] == sorted[j];
    }
    forall c | c in domain ensures exists j :: 0 <= j < |sorted| && sorted[j].cand == c
    {
      var k :| 0 <= k < |domain| && domain[k] == c;
      assert scored[k] in multiset(sorted);
      var j :| 0 <= j < |sorted| && sorted[j] == scored[k];
    }
  }
}
