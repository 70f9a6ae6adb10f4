/**
 * The second half of `solve`: the backtracking search over the ordered
 * variables, which keeps one shared list of committed placements and pushes
 * and pops it, the double-booking test that guards each push, the error when
 * the search fails, and the projection of the placements to timetable entries.
 */
module Search {
  import opened Wrappers
  import opened Entities
  import opened Preferences
  import opened Sorting
  import opened Domains

  /** Two placements double-book: the same instructor, or the same room, in the same time slot. */
  predicate Clash(a: Placement, c: Placement)
  {
    || (a.InstructorId() == c.InstructorId() && a.TimeslotId() == c.TimeslotId())
    || (a.RoomName() == c.RoomName() && a.TimeslotId() == c.TimeslotId())
  }

  /** Some committed placement double-books with `c`. */
  predicate Conflicts(s: seq<Placement>, c: Placement)
  {
    exists k :: 0 <= k < |s| && Clash(s[k], c)
  }

  /** No two placements of `s` double-book. */
  ghost predicate ConflictFree(s: seq<Placement>)
  {
    forall i, j :: 0 <= i < j < |s| ==> !Clash(s[i], s[j])
  }

  /** Placement `k` is for variable `k` of the order and is drawn from that variable's domain. */
  ghost predicate Consistent(order: seq<Variable>, s: seq<Placement>)
  {
    && |s| <= |order|
    && forall k :: 0 <= k < |s| ==> s[k].courseCode == order[k].code && s[k].cand in order[k].domain
  }

  /** A complete assignment: one placement per variable, in order, from its domain, with no double-booking. */
  ghost predicate Solution(order: seq<Variable>, s: seq<Placement>)
  {
    |s| == |order| && Consistent(order, s) && ConflictFree(s)
  }

  /** Some complete assignment starts with the placements `p`. */
  ghost predicate Extensible(order: seq<Variable>, p: seq<Placement>)
  {
    exists s :: Solution(order, s) && p <= s
  }

  /** Whatever a complete assignment starts with follows the order and has no double-booking. */
  lemma ExtensibleValid(order: seq<Variable>, p: seq<Placement>)
    requires Extensible(order, p)
    ensures Consistent(order, p) && ConflictFree(p)
  {
    var s: seq<Placement> :| Solution(order, s) && p <= s;
    forall k | 0 <= k < |p| ensures p[k] == s[k] {}
  }

  /** A partial assignment that some complete one extends can take one more step by a candidate of the next domain. */
  lemma ExtensibleStep(order: seq<Variable>, p: seq<Placement>) returns (c: Candidate)
    requires |p| < |order| && Extensible(order, p)
    ensures c in order[|p|].domain && Extensible(order, p + [Placement(order[|p|].code, c)])
  {
    var s: seq<Placement> :| Solution(order, s) && p <= s;
    var x := s[|p|];
    c := x.cand;
    assert x == Placement(order[|p|].code, c);
    assert p + [x] <= s by {
      assert s[..|p| + 1] == s[..|p|] + [x];
    }
  }

  /** Appending keeps a list free of double-bookings exactly when the new placement clashes with none. */
  lemma AppendConflictFree(s: seq<Placement>, c: Placement)
    requires ConflictFree(s)
    ensures ConflictFree(s + [c]) <==> !Conflicts(s, c)
  {
    var t := s + [c];
    if Conflicts(s, c) {
      var k :| 0 <= k < |s| && Clash(s[k], c);
      assert t[k] == s[k] && t[|s|] == c;
    } else {
      forall i, j | 0 <= i < j < |t| ensures !Clash(t[i], t[j])
      {
        assert t[i] == s[i];
        if j < |s| {
          assert t[j] == s[j];
        }
      }
    }
  }

  /** A placement that double-books with a committed one cannot be part of any complete assignment. */
  lemma ConflictBlocks(order: seq<Variable>, p: seq<Placement>, c: Placement)
    requires Conflicts(p, c)
    ensures !Extensible(order, p + [c])
  {
    var k :| 0 <= k < |p| && Clash(p[k], c);
    var q := p + [c];
    assert q[k] == p[k] && q[|p|] == c;
    if Extensible(order, q) {
      ExtensibleValid(order, q);
    }
  }

  /**
   * A partial assignment whose every one-step extension by a candidate of the next
   * variable's domain is a dead end is a dead end itself.
   */
  lemma AllCandidatesBlocked(order: seq<Variable>, p: seq<Placement>)
    requires |p| < |order|
    requires forall c :: c in order[|p|].domain ==> !Extensible(order, p + [Placement(order[|p|].code, c)])
    ensures !Extensible(order, p)
  {
    if Extensible(order, p) {
      var c := ExtensibleStep(order, p);
    }
  }

  /** A variable with an empty domain leaves no complete assignment at all. */
  lemma EmptyDomainBlocks(order: seq<Variable>, k: nat)
    requires k < |order| && order[k].domain == []
    ensures forall s :: !Solution(order, s)
  {
    forall s: seq<Placement> ensures !Solution(order, s)
    {
      if |s| == |order| {
        var x := s[k];
      }
    }
  }

  /** The message of the error that `solve` throws when the search fails. */
  const NoSolutionMessage: string := "No feasible assignment found for given data and constraints"

  /**
   * The state the closures of `solve` share: the variable order, fixed once
   * built, and the list of committed placements, which the search pushes and pops.
   */
  class Solver {
    const order: seq<Variable>
    var assignment: seq<Placement>

    constructor(order: seq<Variable>)
      ensures this.order == order && assignment == []
    {
      this.order := order;
      assignment := [];
    }

    /** `violatesHard`: whether `cand` double-books with some committed placement. */
    method ViolatesHard(cand: Placement) returns (v: bool)
      ensures v == Conflicts(assignment, cand)
    {
      for k := 0 to |assignment|
        invariant forall j :: 0 <= j < k ==> !Clash(assignment[j], cand)
      {
        var a := assignment[k];
        if a.InstructorId() == cand.InstructorId() && a.TimeslotId() == cand.TimeslotId() {
          return true;
        }
        if a.RoomName() == cand.RoomName() && a.TimeslotId() == cand.TimeslotId() {
          return true;
        }
      }
      return false;
    }

    /**
     * `backtrack(index)`: tries the candidates of variable `index` in score order,
     * commits the first that does not double-book and recurses. On success the list
     * is a complete assignment that starts with what it held before, and at this
     * level and every deeper one its placement is the first candidate in the try
     * order that some complete assignment could extend; on failure the list is as before and no complete assignment
     * starts with it.
     */
    method Backtrack(index: nat) returns (ok: bool)
      requires index == |assignment| <= |order|
      requires Consistent(order, assignment) && ConflictFree(assignment)
      modifies this
      ensures ok ==> Solution(order, assignment) && old(assignment) <= assignment
      ensures ok ==> FirstViableFrom(order, assignment, index)
      ensures !ok ==> assignment == old(assignment) && !Extensible(order, old(assignment))
      ensures index < |order| && order[index].domain == [] ==> !ok
      decreases |order| - index
    {
      if index >= |order| {
        return true;
      }
      var courseCode, domain := order[index].code, order[index].domain;
      if |domain| == 0 {
        AllCandidatesBlocked(order, assignment);
        return false;
      }
      var sorted := TryOrder(courseCode, domain);
      for t := 0 to |sorted|
        invariant assignment == old(assignment)
        invariant DeadEndsBefore(order, old(assignment), sorted, t)
      {
        var cand := Placement(courseCode, sorted[t].cand);
        var bad := ViolatesHard(cand);
        if bad {
          ConflictBlocks(order, assignment, cand);
          DeadEndAdvance(order, assignment, sorted, t);
          continue;
        }
        TriedInDomain(courseCode, domain, t);
        PushKeepsValid(order, assignment, cand);
        assignment := assignment + [cand];
        ghost var pushed := assignment;
        ok := Backtrack(index + 1);
        if ok {
          assert pushed <= assignment && pushed[index] == cand;
          FirstViableExtend(order, old(assignment), assignment, t);
          return;
        }
        assignment := assignment[..|assignment| - 1];
        DeadEndAdvance(order, assignment, sorted, t);
      }
      AllTriedBlocked(order, old(assignment));
      return false;
    }
  }

  /** The candidates before position `t` of the try order `sorted` each lead only to dead ends after `p`. */
  ghost predicate DeadEndsBefore(order: seq<Variable>, p: seq<Placement>, sorted: seq<Scored>, t: int)
    requires |p| < |order|
  {
    forall j :: 0 <= j < t && j < |sorted| ==> !Extensible(order, p + [Placement(order[|p|].code, sorted[j].cand)])
  }

  lemma DeadEndAdvance(order: seq<Variable>, p: seq<Placement>, sorted: seq<Scored>, t: nat)
    requires |p| < |order| && t < |sorted| && DeadEndsBefore(order, p, sorted, t)
    requires !Extensible(order, p + [Placement(order[|p|].code, sorted[t].cand)])
    ensures DeadEndsBefore(order, p, sorted, t + 1)
  {
  }

  /**
   * `s` extends `p` by the first candidate, in the try order of the next variable,
   * that is not a dead end.
   */
  ghost predicate ChoseFirstViable(order: seq<Variable>, p: seq<Placement>, s: seq<Placement>)
  {
    |p| < |order| && |p| < |s| ==>
      var sorted := TryOrder(order[|p|].code, order[|p|].domain);
      exists t :: 0 <= t < |sorted| && s[|p|] == Placement(order[|p|].code, sorted[t].cand)
        && DeadEndsBefore(order, p, sorted, t)
  }

  /** From level `from` on, every placement of `s` is the first viable one after the placements before it. */
  ghost predicate FirstViableFrom(order: seq<Variable>, s: seq<Placement>, from: nat)
  {
    forall l :: from <= l < |s| ==> ChoseFirstViable(order, s[..l], s)
  }

  /** Choosing the first viable candidate after `p` adds level `|p|` to the levels chosen that way. */
  lemma FirstViableExtend(order: seq<Variable>, p: seq<Placement>, s: seq<Placement>, t: nat)
    requires |p| < |order| && |p| < |s| && p <= s
    requires FirstViableFrom(order, s, |p| + 1)
    requires var sorted := TryOrder(order[|p|].code, order[|p|].domain);
      t < |sorted| && s[|p|] == Placement(order[|p|].code, sorted[t].cand) && DeadEndsBefore(order, p, sorted, t)
    ensures FirstViableFrom(order, s, |p|)
  {
    assert s[..|p|] == p;
  }

  /** Two complete assignments that both pick the first viable candidate at every level agree at the next one. */
  lemma SameChoice(order: seq<Variable>, p: seq<Placement>, s1: seq<Placement>, s2: seq<Placement>)
    requires Solution(order, s1) && Solution(order, s2) && |p| < |order|
    requires p == s1[..|p|] && p == s2[..|p|]
    requires ChoseFirstViable(order, p, s1) && ChoseFirstViable(order, p, s2)
    ensures s1[|p|] == s2[|p|]
  {
    assert p + [s1[|p|]] == s1[..|p| + 1] <= s1;
    assert p + [s2[|p|]] == s2[..|p| + 1] <= s2;
    assert Extensible(order, p + [s1[|p|]]) && Extensible(order, p + [s2[|p|]]);
  }

  /** Such assignments agree on their first `n` placements. */
  lemma {:induction false} SamePrefix(order: seq<Variable>, s1: seq<Placement>, s2: seq<Placement>, n: nat)
    requires Solution(order, s1) && Solution(order, s2)
    requires FirstViableFrom(order, s1, 0) && FirstViableFrom(order, s2, 0)
    requires n <= |order|
    ensures s1[..n] == s2[..n]
  {
    if n > 0 {
      SamePrefix(order, s1, s2, n - 1);
      assert ChoseFirstViable(order, s1[..n - 1], s1);
      assert ChoseFirstViable(order, s2[..n - 1], s2);
      SameNext(order, s1, s2, n - 1);
    }
  }

  lemma SameNext(order: seq<Variable>, s1: seq<Placement>, s2: seq<Placement>, l: nat)
    requires Solution(order, s1) && Solution(order, s2)
    requires l < |order| && s1[..l] == s2[..l]
    requires ChoseFirstViable(order, s1[..l], s1) && ChoseFirstViable(order, s2[..l], s2)
    ensures s1[..l + 1] == s2[..l + 1]
  {
    SameChoice(order, s1[..l], s1, s2);
    PrefixStep(s1, l);
    PrefixStep(s2, l);
  }

  lemma PrefixStep<T>(s: seq<T>, l: nat)
    requires l < |s|
    ensures s[..l + 1] == s[..l] + [s[l]]
  {
  }

  /**
   * At most one complete assignment picks, at every level, the first viable candidate
   * of the try order: the timetable the search returns is determined by its inputs.
   */
  lemma FirstViableUnique(order: seq<Variable>, s1: seq<Placement>, s2: seq<Placement>)
    requires Solution(order, s1) && Solution(order, s2)
    requires FirstViableFrom(order, s1, 0) && FirstViableFrom(order, s2, 0)
    ensures s1 == s2
  {
    SamePrefix(order, s1, s2, |order|);
    assert s1 == s1[..|order|] && s2 == s2[..|order|];
  }

  /** Every candidate the search tries is in the variable's domain. */
  lemma TriedInDomain(courseCode: string, domain: seq<Candidate>, j: nat)
    requires j < |TryOrder(courseCode, domain)|
    ensures TryOrder(courseCode, domain)[j].cand in domain
  {
    TryOrderCandidates(courseCode, domain);
  }

  /** Pushing a candidate of the next domain that clashes with nothing keeps the list a valid partial assignment. */
  lemma PushKeepsValid(order: seq<Variable>, p: seq<Placement>, c: Placement)
    requires Consistent(order, p) && ConflictFree(p) && |p| < |order|
    requires c.courseCode == order[|p|].code && c.cand in order[|p|].domain && !Conflicts(p, c)
    ensures Consistent(order, p + [c]) && ConflictFree(p + [c])
  {
    AppendConflictFree(p, c);
    var q := p + [c];
    forall k | 0 <= k < |q| ensures q[k].courseCode == order[k].code && q[k].cand in order[k].domain
    {
      if k < |p| {
        assert q[k] == p[k];
      }
    }
  }

  /** When every candidate of the try order is a dead end, so is the partial assignment. */
  lemma AllTriedBlocked(order: seq<Variable>, p: seq<Placement>)
    requires |p| < |order|
    requires var sorted := TryOrder(order[|p|].code, order[|p|].domain);
      DeadEndsBefore(order, p, sorted, |sorted|)
    ensures !Extensible(order, p)
  {
    var code, domain := order[|p|].code, order[|p|].domain;
    var sorted := TryOrder(code, domain);
    TryOrderCandidates(code, domain);
    forall c | c in domain ensures !Extensible(order, p + [Placement(code, c)])
    {
      var j :| 0 <= j < |sorted| && sorted[j].cand == c;
    }
    AllCandidatesBlocked(order, p);
  }

  /** The four-field entry of each committed placement, in order. */
  function Project(s: seq<Placement>): seq<TimetableEntry>
  {
    seq(|s|, k requires 0 <= k < |s| => EntryOf(s[k]))
  }

  /**
   * `solve` on the four entity lists: builds the domains, orders them by size,
   * runs the search from the first variable and returns the entries of the
   * complete assignment it finds; when there is none it fails with the solver's
   * error message.
   */
  method Solve(courses: seq<Course>, instructors: seq<Instructor>, rooms: seq<Room>, timeslots: seq<TimeSlot>)
    returns (r: Result<seq<TimetableEntry>, string>)
    ensures var order := MrvOrder(courses, timeslots, rooms, instructors);
      && (r.Success? ==> exists s :: Solution(order, s) && FirstViableFrom(order, s, 0) && r.value == Project(s))
      && (r.Success? ==> EntriesConflictFree(r.value))
      && (r.Failure? ==> r.error == NoSolutionMessage && forall s :: !Solution(order, s))
  {
    var domains := BuildDomains(courses, timeslots, rooms, instructors);
    var order := SortBy(domains, DomainSize);
    var solver := new Solver(order);
    var ok := solver.Backtrack(0);
    if !ok {
      forall s: seq<Placement> ensures !Solution(order, s)
      {
        assert [] <= s;
      }
      return Failure(NoSolutionMessage);
    }
    ProjectedEntriesConflictFree(solver.assignment);
    return Success(Project(solver.assignment));
  }

  /**
   * The course a placement serves allows its candidate: the time slot, room and
   * instructor are listed, the room's type suits the course, and the instructor's
   * day preferences are met unless no candidate at all met them.
   */
  ghost predicate Admissible(course: Course, tss: seq<TimeSlot>, rooms: seq<Room>, insts: seq<Instructor>, c: Candidate)
  {
    Admits(course, tss, rooms, insts, Grid(course, tss, rooms, insts, true) != [], c)
  }

  /** The placement suits the last course listed with its code. */
  ghost predicate SuitsLastCourse(courses: seq<Course>, tss: seq<TimeSlot>, rooms: seq<Room>, insts: seq<Instructor>, p: Placement)
  {
    exists j :: LastWithCode(courses, j, p.courseCode) && Admissible(courses[j], tss, rooms, insts, p.cand)
  }

  /**
   * What a timetable from `solve` guarantees: every course code is placed exactly
   * once; each placement suits the last course with its code; and no instructor
   * and no room is booked twice in one time slot.
   */
  lemma SolutionMeetsConstraints(courses: seq<Course>, instructors: seq<Instructor>, rooms: seq<Room>, timeslots: seq<TimeSlot>,
                                 s: seq<Placement>)
    requires Solution(MrvOrder(courses, timeslots, rooms, instructors), s)
    ensures forall j :: 0 <= j < |courses| ==> exists k :: 0 <= k < |s| && s[k].courseCode == courses[j].code
    ensures forall k1, k2 :: 0 <= k1 < k2 < |s| ==> s[k1].courseCode != s[k2].courseCode
    ensures forall k :: 0 <= k < |s| ==>
      SuitsLastCourse(courses, timeslots, rooms, instructors, s[k])
    ensures forall k1, k2 :: 0 <= k1 < k2 < |s| && s[k1].TimeslotId() == s[k2].TimeslotId() ==>
      s[k1].InstructorId() != s[k2].InstructorId() && s[k1].RoomName() != s[k2].RoomName()
  {
    var order := MrvOrder(courses, timeslots, rooms, instructors);
    MrvOrderCodes(courses, timeslots, rooms, instructors);
    EveryCoursePlaced(courses, timeslots, rooms, instructors, order, s);
    EachCodeOnce(courses, timeslots, rooms, instructors, order, s);
    EachPlacementAdmissible(courses, timeslots, rooms, instructors, order, s);
    NoDoubleBooking(s);
  }

  /** No two entries book the same instructor, or the same room, in one time slot. */
  predicate EntriesConflictFree(es: seq<TimetableEntry>)
  {
    forall k1, k2 :: 0 <= k1 < k2 < |es| && es[k1].timeslotId == es[k2].timeslotId ==>
      es[k1].instructorId != es[k2].instructorId && es[k1].roomName != es[k2].roomName
  }

  /** The entries of placements without double-booking have none either, and list the same courses in the same order. */
  lemma ProjectedEntriesConflictFree(s: seq<Placement>)
    requires ConflictFree(s)
    ensures EntriesConflictFree(Project(s))
    ensures |Project(s)| == |s| && forall k :: 0 <= k < |s| ==> Project(s)[k].courseCode == s[k].courseCode
  {
    NoDoubleBooking(s);
  }

  lemma NoDoubleBooking(s: seq<Placement>)
    requires ConflictFree(s)
    ensures forall k1, k2 :: 0 <= k1 < k2 < |s| && s[k1].TimeslotId() == s[k2].TimeslotId() ==>
      s[k1].InstructorId() != s[k2].InstructorId() && s[k1].RoomName() != s[k2].RoomName()
  {
    forall k1, k2 | 0 <= k1 < k2 < |s| && s[k1].TimeslotId() == s[k2].TimeslotId()
      ensures s[k1].InstructorId() != s[k2].InstructorId() && s[k1].RoomName() != s[k2].RoomName()
    {
      assert !Clash(s[k1], s[k2]);
    }
  }

  /** Some placement of `s` serves `code`. */
  ghost predicate Placed(s: seq<Placement>, code: string)
  {
    exists k :: 0 <= k < |s| && s[k].courseCode == code
  }

  lemma EveryCoursePlaced(courses: seq<Course>, tss: seq<TimeSlot>, rooms: seq<Room>, insts: seq<Instructor>,
                          order: seq<Variable>, s: seq<Placement>)
    requires MapsCourses(courses, tss, rooms, insts, order) && Solution(order, s)
    ensures forall j :: 0 <= j < |courses| ==> Placed(s, courses[j].code)
  {
    forall j | 0 <= j < |courses| ensures Placed(s, courses[j].code)
    {
      assert CodeListed(courses, courses[j].code);
      CoursePlaced(order, s, courses[j].code);
    }
  }

  /** A code some variable carries is the code of some placement of a complete assignment. */
  lemma CoursePlaced(order: seq<Variable>, s: seq<Placement>, code: string)
    requires Solution(order, s) && HasCode(order, code)
    ensures Placed(s, code)
  {
    var k :| 0 <= k < |order| && order[k].code == code;
    assert s[k].courseCode == order[k].code;
  }

  lemma EachCodeOnce(courses: seq<Course>, tss: seq<TimeSlot>, rooms: seq<Room>, insts: seq<Instructor>,
                     order: seq<Variable>, s: seq<Placement>)
    requires MapsCourses(courses, tss, rooms, insts, order) && Solution(order, s)
    ensures forall k1, k2 :: 0 <= k1 < k2 < |s| ==> s[k1].courseCode != s[k2].courseCode
  {
    forall k1, k2 | 0 <= k1 < k2 < |s| ensures s[k1].courseCode != s[k2].courseCode
    {
      assert s[k1].courseCode == order[k1].code && s[k2].courseCode == order[k2].code;
    }
  }

  lemma EachPlacementAdmissible(courses: seq<Course>, tss: seq<TimeSlot>, rooms: seq<Room>, insts: seq<Instructor>,
                                order: seq<Variable>, s: seq<Placement>)
    requires MapsCourses(courses, tss, rooms, insts, order) && Solution(order, s)
    ensures forall k :: 0 <= k < |s| ==>
      SuitsLastCourse(courses, tss, rooms, insts, s[k])
  {
    forall k | 0 <= k < |s|
      ensures SuitsLastCourse(courses, tss, rooms, insts, s[k])
    {
      PlacementAdmissible(courses, tss, rooms, insts, order[k], s[k]);
    }
  }

  /** A placement drawn from a variable holding its code's last domain suits that course. */
  lemma PlacementAdmissible(courses: seq<Course>, tss: seq<TimeSlot>, rooms: seq<Room>, insts: seq<Instructor>,
                            v: Variable, p: Placement)
    requires HoldsLastDomain(courses, tss, rooms, insts, v)
    requires p.courseCode == v.code && p.cand in v.domain
    ensures SuitsLastCourse(courses, tss, rooms, insts, p)
  {
    var j :| LastWithCode(courses, j, v.code) && v.domain == CourseDomain(courses[j], tss, rooms, insts);
    PlacedCandidateAdmissible(courses[j], tss, rooms, insts, p.cand);
  }

  lemma PlacedCandidateAdmissible(course: Course, tss: seq<TimeSlot>, rooms: seq<Room>, insts: seq<Instructor>, c: Candidate)
    requires c in CourseDomain(course, tss, rooms, insts)
    ensures Admissible(course, tss, rooms, insts, c)
  {
    DomainSound(course, tss, rooms, insts);
  }
}
