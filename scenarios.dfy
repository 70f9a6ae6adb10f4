/**
 * Two preference texts worked through the scanner: the plain "Not on Sunday",
 * and a text in which the greedy match of the first clause swallows the start
 * of the second, so that the second day stays allowed.
 */
module Scenarios {
  import opened Wrappers
  import opened Text
  import opened Entities
  import opened Preferences

  lemma LowerSamples()
    ensures Lower("Not on Sunday") == "not on sunday"
    ensures Lower("not on not on monday") == "not on not on monday"
    ensures Lower("Sunday") == "sunday" && Lower("Monday") == "monday"
  {
  }

  lemma SundayWords()
    ensures MatchedWords("not on sunday") == ["sunday"]
  {
    var t := "not on sunday";
    assert ClauseAt(t, 0);
    assert ClauseEnd(t, 0) == 13;
    assert MatchSpans(t, 13) == [];
    assert MatchSpans(t, 0) == [Span(0, 13)];
    assert ClauseWord(t, 0) == t[7..13] == "sunday";
  }

  /** "Not on Sunday" refuses a Sunday slot and allows a Monday slot. */
  lemma SundayRefused(instr: Instructor, sunday: TimeSlot, monday: TimeSlot)
    requires instr.preferredSlots == Some("Not on Sunday")
    requires sunday.day == "Sunday" && monday.day == "Monday"
    ensures !InstructorAllowsTimeslot(instr, sunday)
    ensures InstructorAllowsTimeslot(instr, monday)
  {
    LowerSamples();
    SundayWords();
    assert PreferenceText(instr) == "not on sunday";
    AllowsTimeslotIff(instr, sunday);
    AllowsTimeslotIff(instr, monday);
  }

  /** In "not on not on monday" the only match is "not on not": its letters run up to the second "on". */
  lemma SwallowedWords()
    ensures MatchedWords("not on not on monday") == ["not"]
  {
    var t := "not on not on monday";
    assert ClauseAt(t, 0);
    assert RunEnd(t, 10) == 10;
    assert ClauseEnd(t, 0) == 10;
    forall j | 10 <= j ensures !ClauseAt(t, j)
    {
      if j + 7 < |t| {
        assert j == 10 || j == 11 || j == 12;
      }
    }
    NoClauseNoMatch(t, 10);
    assert MatchSpans(t, 0) == [Span(0, 10)];
    assert ClauseWord(t, 0) == t[7..10] == "not";
  }

  /** So an instructor who wrote "not on not on monday" is still offered Monday slots. */
  lemma SwallowedClauseAllowsMonday(instr: Instructor, monday: TimeSlot)
    requires instr.preferredSlots == Some("not on not on monday")
    requires monday.day == "Monday"
    ensures InstructorAllowsTimeslot(instr, monday)
  {
    LowerSamples();
    SwallowedWords();
    assert PreferenceText(instr) == "not on not on monday";
    AllowsTimeslotIff(instr, monday);
  }
}
