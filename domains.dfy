/**
 * The first half of `solve`: each course's domain of (timeslot, room,
 * instructor) candidates, built by three nested loops in that order with the
 * room-type filter and the instructor's day preferences, and rebuilt once
 * without the preferences when that leaves nothing; the map from course code
 * to domain; and the most-constrained-first order of its entries.
 */
module Domains {
  import opened Text
  import opened Entities
  import opened Preferences
  import opened Sorting

  /** Whether a pass keeps `inst` for `ts`: the first pass honours day preferences, the fallback does not. */
  predicate Keeps(honour: bool, inst: Instructor, ts: TimeSlot)
  {
    !honour || InstructorAllowsTimeslot(inst, ts)
  }

  /** The candidates the innermost loop pushes for one time slot and one room. */
  function Cells(ts: TimeSlot, room: Room, insts: seq<Instructor>, honour: bool): seq<Candidate>
  {
    if insts == [] then []
    else
      var inst := insts[|insts| - 1];
      Cells(ts, room, insts[..|insts| - 1], honour)
        + (if Keeps(honour, inst, ts) then [Candidate(ts, room, inst)] else [])
  }

  /** The candidates the room loop pushes for one time slot: rooms of another type are skipped. */
  function Row(course: Course, ts: TimeSlot, rooms: seq<Room>, insts: seq<Instructor>, honour: bool): seq<Candidate>
  {
    if rooms == [] then []
    else
      var room := rooms[|rooms| - 1];
      Row(course, ts, rooms[..|rooms| - 1], insts, honour)
        + (if TypeCompatible(course.ctype, room.rtype) then Cells(ts, room, insts, honour) else [])
  }

  /** The candidates one complete pass of the three loops pushes, in timeslot, room, instructor order. */
  function Grid(course: Course, tss: seq<TimeSlot>, rooms: seq<Room>, insts: seq<Instructor>, honour: bool): seq<Candidate>
  {
    if tss == [] then []
    else
      Grid(course, tss[..|tss| - 1], rooms, insts, honour)
        + Row(course, tss[|tss| - 1], rooms, insts, honour)
  }

  /** A course's domain: the pass that honours preferences, or the relaxed pass when that one is empty. */
  function CourseDomain(course: Course, tss: seq<TimeSlot>, rooms: seq<Room>, insts: seq<Instructor>): seq<Candidate>
  {
    var d := Grid(course, tss, rooms, insts, true);
    if |d| == 0 then Grid(course, tss, rooms, insts, false) else d
  }

  /** A triple is in a pass exactly when its parts are listed, its room suits the course and the pass keeps its instructor. */
  predicate Admits(course: Course, tss: seq<TimeSlot>, rooms: seq<Room>, insts: seq<Instructor>, honour: bool, c: Candidate)
  {
    && c.timeslot in tss && c.room in rooms && c.instructor in insts
    && TypeCompatible(course.ctype, c.room.rtype)
    && Keeps(honour, c.instructor, c.timeslot)
  }

  lemma {:induction false} CellsMembers(ts: TimeSlot, room: Room, insts: seq<Instructor>, honour: bool, c: Candidate)
    ensures c in Cells(ts, room, insts, honour)
        <==> c.timeslot == ts && c.room == room && c.instructor in insts && Keeps(honour, c.instructor, ts)
  {
    if insts != [] {
      var init := insts[..|insts| - 1];
      CellsMembers(ts, room, init, honour, c);
      assert insts == init + [insts[|insts| - 1]];
      assert c.instructor in insts <==> c.instructor in init || c.instructor == insts[|insts| - 1];
    }
  }

  lemma {:induction false} RowMembers(course: Course, ts: TimeSlot, rooms: seq<Room>, insts: seq<Instructor>, honour: bool, c: Candidate)
    ensures c in Row(course, ts, rooms, insts, honour)
        <==> && c.timeslot == ts && c.room in rooms && c.instructor in insts
             && TypeCompatible(course.ctype, c.room.rtype) && Keeps(honour, c.instructor, ts)
  {
    if rooms != [] {
      var init, room := rooms[..|rooms| - 1], rooms[|rooms| - 1];
      RowMembers(course, ts, init, insts, honour, c);
      CellsMembers(ts, room, insts, honour, c);
      assert rooms == init + [room];
      assert c.room in rooms <==> c.room in init || c.room == room;
    }
  }

  /** A pass of the three loops holds exactly the triples it admits. */
  lemma {:induction false} GridMembers(course: Course, tss: seq<TimeSlot>, rooms: seq<Room>, insts: seq<Instructor>, honour: bool, c: Candidate)
    ensures c in Grid(course, tss, rooms, insts, honour) <==> Admits(course, tss, rooms, insts, honour, c)
  {
    if tss != [] {
      var init, ts := tss[..|tss| - 1], tss[|tss| - 1];
      GridMembers(course, init, rooms, insts, honour, c);
      RowMembers(course, ts, rooms, insts, honour, c);
      assert tss == init + [ts];
      assert c.timeslot in tss <==> c.timeslot in init || c.timeslot == ts;
      assert c in Grid(course, tss, rooms, insts, honour)
          <==> c in Grid(course, init, rooms, insts, honour) || c in Row(course, ts, rooms, insts, honour);
    }
  }

  /**
   * The domain of a course: every candidate is made of listed entities and its room
   * suits the course; either some candidate survives the preferences and the domain
   * is exactly the preference-honouring pass, or none does and the domain is exactly
   * the relaxed pass.
   */
  lemma DomainSound(course: Course, tss: seq<TimeSlot>, rooms: seq<Room>, insts: seq<Instructor>)
    ensures forall c :: c in CourseDomain(course, tss, rooms, insts) ==>
      c.timeslot in tss && c.room in rooms && c.instructor in insts && TypeCompatible(course.ctype, c.room.rtype)
    ensures var strict := Grid(course, tss, rooms, insts, true);
      || (strict != [] && CourseDomain(course, tss, rooms, insts) == strict
          && forall c :: c in strict ==> InstructorAllowsTimeslot(c.instructor, c.timeslot))
      || (strict == [] && CourseDomain(course, tss, rooms, insts) == Grid(course, tss, rooms, insts, false))
  {
    var strict := Grid(course, tss, rooms, insts, true);
    forall c | c in CourseDomain(course, tss, rooms, insts)
      ensures c.timeslot in tss && c.room in rooms && c.instructor in insts && TypeCompatible(course.ctype, c.room.rtype)
    {
      GridMembers(course, tss, rooms, insts, true, c);
      GridMembers(course, tss, rooms, insts, false, c);
    }
    forall c | c in strict ensures InstructorAllowsTimeslot(c.instructor, c.timeslot)
    {
      GridMembers(course, tss, rooms, insts, true, c);
    }
  }

  /**
   * A domain ends up empty exactly when no listed time slot, room and instructor fit
   * together by room type: the day preferences alone never empty a domain.
   */
  lemma DomainEmptyIff(course: Course, tss: seq<TimeSlot>, rooms: seq<Room>, insts: seq<Instructor>)
    ensures CourseDomain(course, tss, rooms, insts) == []
        <==> tss == [] || insts == [] || forall r :: r in rooms ==> !TypeCompatible(course.ctype, r.rtype)
  {
    if CourseDomain(course, tss, rooms, insts) == [] {
      if tss != [] && insts != [] {
        EmptyDomainNoFit(course, tss, rooms, insts);
      }
    } else {
      DomainHasFit(course, tss, rooms, insts);
    }
  }

  /** With slots and instructors listed, an empty domain means no room suits the course. */
  lemma EmptyDomainNoFit(course: Course, tss: seq<TimeSlot>, rooms: seq<Room>, insts: seq<Instructor>)
    requires tss != [] && insts != [] && CourseDomain(course, tss, rooms, insts) == []
    ensures forall r :: r in rooms ==> !TypeCompatible(course.ctype, r.rtype)
  {
    assert Grid(course, tss, rooms, insts, false) == [];
    forall r | r in rooms ensures !TypeCompatible(course.ctype, r.rtype)
    {
      GridMembers(course, tss, rooms, insts, false, Candidate(tss[0], r, insts[0]));
    }
  }

  /** A non-empty domain shows a listed slot, a listed instructor and a suitable room. */
  lemma DomainHasFit(course: Course, tss: seq<TimeSlot>, rooms: seq<Room>, insts: seq<Instructor>)
    requires CourseDomain(course, tss, rooms, insts) != []
    ensures tss != [] && insts != [] && exists r :: r in rooms && TypeCompatible(course.ctype, r.rtype)
  {
    var c := CourseDomain(course, tss, rooms, insts)[0];
    DomainSound(course, tss, rooms, insts);
    assert c in CourseDomain(course, tss, rooms, insts);
    assert c.room in rooms && TypeCompatible(course.ctype, c.room.rtype);
  }

  /**
   * One pass of the nested loops of `solve` for one course; with `honour` false the
   * instructor's day preferences are not consulted (the relaxation pass). The two
   * inner loops are the methods below.
   */
  method PushProduct(course: Course, timeslots: seq<TimeSlot>, rooms: seq<Room>, instructors: seq<Instructor>, honour: bool)
    returns (domain: seq<Candidate>)
    ensures domain == Grid(course, timeslots, rooms, instructors, honour)
  {
    domain := [];
    for t := 0 to |timeslots|
      invariant domain == Grid(course, timeslots[..t], rooms, instructors, honour)
    {
      assert timeslots[..t + 1][..t] == timeslots[..t];
      domain := PushRow(domain, course, timeslots[t], rooms, instructors, honour);
    }
    assert timeslots[..|timeslots|] == timeslots;
  }

  /** The room loop for one time slot: a room whose type does not suit the course is skipped. */
  method PushRow(domain0: seq<Candidate>, course: Course, ts: TimeSlot, rooms: seq<Room>, instructors: seq<Instructor>, honour: bool)
    returns (domain: seq<Candidate>)
    ensures domain == domain0 + Row(course, ts, rooms, instructors, honour)
  {
    domain := domain0;
    for r := 0 to |rooms|
      invariant domain == domain0 + Row(course, ts, rooms[..r], instructors, honour)
    {
      var room := rooms[r];
      assert rooms[..r + 1][..r] == rooms[..r] && rooms[..r + 1][r] == room;
      if course.ctype != "" && room.rtype != "" && Upper(course.ctype) != Upper(room.rtype) {
        continue;
      }
      ghost var row := Row(course, ts, rooms[..r], instructors, honour);
      domain := PushCells(domain, ts, room, instructors, honour);
      ghost var cells := Cells(ts, room, instructors, honour);
      assert (domain0 + row) + cells == domain0 + (row + cells);
    }
    assert rooms[..|rooms|] == rooms;
  }

  /** The instructor loop for one time slot and room: an instructor who refuses the day is skipped when preferences are honoured. */
  method PushCells(domain0: seq<Candidate>, ts: TimeSlot, room: Room, instructors: seq<Instructor>, honour: bool)
    returns (domain: seq<Candidate>)
    ensures domain == domain0 + Cells(ts, room, instructors, honour)
  {
    domain := domain0;
    for i := 0 to |instructors|
      invariant domain == domain0 + Cells(ts, room, instructors[..i], honour)
    {
      var inst := instructors[i];
      assert instructors[..i + 1][..i] == instructors[..i];
      if honour && !InstructorAllowsTimeslot(inst, ts) {
        continue;
      }
      domain := domain + [Candidate(ts, room, inst)];
    }
    assert instructors[..|instructors|] == instructors;
  }

  /** The domain of one course as `solve` builds it, the relaxation included. */
  method BuildDomain(course: Course, timeslots: seq<TimeSlot>, rooms: seq<Room>, instructors: seq<Instructor>)
    returns (domain: seq<Candidate>)
    ensures domain == CourseDomain(course, timeslots, rooms, instructors)
  {
    domain := PushProduct(course, timeslots, rooms, instructors, true);
    if |domain| == 0 {
      domain := PushProduct(course, timeslots, rooms, instructors, false);
    }
  }

  /** One entry of the domain map: a course code and its domain. */
  datatype Variable = Variable(code: string, domain: seq<Candidate>)

  function DomainSize(v: Variable): int { |v.domain| }

  ghost predicate DistinctCodes(vs: seq<Variable>)
  {
    forall i, j :: 0 <= i < j < |vs| ==> vs[i].code != vs[j].code
  }

  /**
   * `Map.prototype.set` on a map kept as its entries in insertion order: an existing
   * key keeps its place and takes the new value, a new key goes at the end.
   */
  function MapSet(vs: seq<Variable>, code: string, d: seq<Candidate>): seq<Variable>
  {
    if vs == [] then [Variable(code, d)]
    else if vs[0].code == code then [Variable(code, d)] + vs[1..]
    else [vs[0]] + MapSet(vs[1..], code, d)
  }

  /** Whether some entry has this key. */
  predicate HasCode(vs: seq<Variable>, code: string)
  {
    exists k :: 0 <= k < |vs| && vs[k].code == code
  }

  /**
   * What setting `code` to `d` in `vs` must give: a key that is present has that one
   * entry's value replaced in place, a new key is appended; keys stay distinct.
   */
  ghost predicate IsMapSet(vs: seq<Variable>, code: string, d: seq<Candidate>, r: seq<Variable>)
  {
    && DistinctCodes(r)
    && (HasCode(vs, code) ==>
          && |r| == |vs|
          && forall k :: 0 <= k < |vs| ==> r[k] == if vs[k].code == code then Variable(code, d) else vs[k])
    && (!HasCode(vs, code) ==> r == vs + [Variable(code, d)])
  }

  lemma {:induction false} MapSetSpec(vs: seq<Variable>, code: string, d: seq<Candidate>)
    requires DistinctCodes(vs)
    ensures IsMapSet(vs, code, d, MapSet(vs, code, d))
  {
    if vs != [] {
      var tail := vs[1..];
      assert DistinctCodes(tail) by {
        forall i, j | 0 <= i < j < |tail| ensures tail[i].code != tail[j].code
        {
          assert tail[i] == vs[i + 1] && tail[j] == vs[j + 1];
        }
      }
      if vs[0].code == code {
        MapSetHead(vs, code, d);
      } else {
        MapSetSpec(tail, code, d);
        MapSetPastHead(vs, code, d);
      }
    }
  }

  lemma MapSetHead(vs: seq<Variable>, code: string, d: seq<Candidate>)
    requires DistinctCodes(vs) && vs != [] && vs[0].code == code
    ensures IsMapSet(vs, code, d, MapSet(vs, code, d))
  {
    var r := MapSet(vs, code, d);
    assert r == [Variable(code, d)] + vs[1..];
    assert HasCode(vs, code) by { assert vs[0].code == code; }
    forall k | 0 <= k < |vs| ensures r[k] == if vs[k].code == code then Variable(code, d) else vs[k]
    {
      if k > 0 {
        assert r[k] == vs[k];
        assert vs[0].code != vs[k].code;
      }
    }
    forall i, j | 0 <= i < j < |r| ensures r[i].code != r[j].code
    {
      assert r[j] == vs[j];
      if i > 0 {
        assert r[i] == vs[i];
      }
    }
  }

  lemma MapSetPastHead(vs: seq<Variable>, code: string, d: seq<Candidate>)
    requires DistinctCodes(vs) && vs != [] && vs[0].code != code
    requires IsMapSet(vs[1..], code, d, MapSet(vs[1..], code, d))
    ensures IsMapSet(vs, code, d, MapSet(vs, code, d))
  {
    var tail := vs[1..];
    var rt := MapSet(tail, code, d);
    var r := MapSet(vs, code, d);
    assert r == [vs[0]] + rt;
    HasCodePastHead(vs, code);
    forall i | 0 <= i < |rt| ensures rt[i].code != vs[0].code
    {
      if i < |tail| && rt[i] == tail[i] {
        assert tail[i] == vs[i + 1];
      } else {
        assert rt[i].code == code;
      }
    }
    ConsDistinct(vs[0], rt);
    if HasCode(vs, code) {
      forall k | 0 <= k < |vs| ensures r[k] == if vs[k].code == code then Variable(code, d) else vs[k]
      {
        if k > 0 {
          assert r[k] == rt[k - 1] && vs[k] == tail[k - 1];
        }
      }
    } else {
      assert r == [vs[0]] + (tail + [Variable(code, d)]);
      assert vs == [vs[0]] + tail;
    }
  }

  /** Past a head with another code, the key is present exactly when it is in the tail. */
  lemma HasCodePastHead(vs: seq<Variable>, code: string)
    requires vs != [] && vs[0].code != code
    ensures HasCode(vs, code) <==> HasCode(vs[1..], code)
  {
    var tail := vs[1..];
    if HasCode(vs, code) {
      var k :| 0 <= k < |vs| && vs[k].code == code;
      assert tail[k - 1] == vs[k];
    }
    if HasCode(tail, code) {
      var k :| 0 <= k < |tail| && tail[k].code == code;
      assert vs[k + 1] == tail[k];
    }
  }

  /** A head whose code is not in a tail of distinct codes keeps the codes distinct. */
  lemma ConsDistinct(v: Variable, rt: seq<Variable>)
    requires DistinctCodes(rt) && forall i :: 0 <= i < |rt| ==> rt[i].code != v.code
    ensures DistinctCodes([v] + rt)
  {
    var r := [v] + rt;
    forall i, j | 0 <= i < j < |r| ensures r[i].code != r[j].code
    {
      assert r[j] == rt[j - 1];
      if i > 0 {
        assert r[i] == rt[i - 1];
      }
    }
  }

  /** The map `solve` fills: one `set` per course, in course order. */
  function DomainMap(courses: seq<Course>, tss: seq<TimeSlot>, rooms: seq<Room>, insts: seq<Instructor>): seq<Variable>
  {
    if courses == [] then []
    else
      var c := courses[|courses| - 1];
      MapSet(DomainMap(courses[..|courses| - 1], tss, rooms, insts), c.code, CourseDomain(c, tss, rooms, insts))
  }

  /** The last course in the list with this code, by its index. */
  ghost predicate LastWithCode(courses: seq<Course>, j: int, code: string)
  {
    0 <= j < |courses| && courses[j].code == code
    && forall j' :: j < j' < |courses| ==> courses[j'].code != code
  }

  /**
   * A map with one entry per distinct course code and no other, each entry holding
   * the domain of the last course with its code.
   */
  ghost predicate MapsCourses(courses: seq<Course>, tss: seq<TimeSlot>, rooms: seq<Room>, insts: seq<Instructor>, m: seq<Variable>)
  {
    && DistinctCodes(m)
    && (forall code :: HasCode(m, code) <==> CodeListed(courses, code))
    && (forall k :: 0 <= k < |m| ==> HoldsLastDomain(courses, tss, rooms, insts, m[k]))
  }

  /** The entry holds the domain of the last course with its code. */
  ghost predicate HoldsLastDomain(courses: seq<Course>, tss: seq<TimeSlot>, rooms: seq<Room>, insts: seq<Instructor>, v: Variable)
  {
    exists j :: LastWithCode(courses, j, v.code) && v.domain == CourseDomain(courses[j], tss, rooms, insts)
  }

  /** An entry for another code than the course appended keeps its domain's origin. */
  lemma LastDomainKept(courses: seq<Course>, tss: seq<TimeSlot>, rooms: seq<Room>, insts: seq<Instructor>, v: Variable)
    requires courses != [] && v.code != courses[|courses| - 1].code
    requires HoldsLastDomain(courses[..|courses| - 1], tss, rooms, insts, v)
    ensures HoldsLastDomain(courses, tss, rooms, insts, v)
  {
    var n := |courses| - 1;
    var init := courses[..n];
    var j :| LastWithCode(init, j, v.code) && v.domain == CourseDomain(init[j], tss, rooms, insts);
    assert courses[j] == init[j];
    forall j' | j < j' < |courses| ensures courses[j'].code != v.code
    {
      if j' < n {
        assert courses[j'] == init[j'];
      }
    }
    assert LastWithCode(courses, j, v.code);
  }

  /**
   * The domain map has one entry per distinct course code, and no other; each entry
   * holds the domain of the last course with its code (a later `set` overwrites).
   */
  lemma {:induction false} DomainMapSpec(courses: seq<Course>, tss: seq<TimeSlot>, rooms: seq<Room>, insts: seq<Instructor>)
    ensures MapsCourses(courses, tss, rooms, insts, DomainMap(courses, tss, rooms, insts))
  {
    if courses != [] {
      var init := courses[..|courses| - 1];
      var c := courses[|courses| - 1];
      var prev := DomainMap(init, tss, rooms, insts);
      DomainMapSpec(init, tss, rooms, insts);
      MapSetSpec(prev, c.code, CourseDomain(c, tss, rooms, insts));
      DomainMapStep(courses, tss, rooms, insts);
    }
  }

  /** `j` is the first course in the list with this code. */
  ghost predicate FirstWithCode(courses: seq<Course>, j: int, code: string)
  {
    0 <= j < |courses| && courses[j].code == code
    && forall j' :: 0 <= j' < j ==> courses[j'].code != code
  }

  /** The entries of `m` come in the order in which their codes first occur in the course list. */
  ghost predicate InFirstOccurrenceOrder(courses: seq<Course>, m: seq<Variable>)
  {
    forall i1, i2, j1, j2 ::
      0 <= i1 < i2 < |m| && FirstWithCode(courses, j1, m[i1].code) && FirstWithCode(courses, j2, m[i2].code) ==> j1 < j2
  }

  /**
   * A `Map` iterates in insertion order and `set` on a present key keeps its place,
   * so the domain map lists each code where the code first occurs among the courses.
   */
  lemma {:induction false} DomainMapOrder(courses: seq<Course>, tss: seq<TimeSlot>, rooms: seq<Room>, insts: seq<Instructor>)
    ensures InFirstOccurrenceOrder(courses, DomainMap(courses, tss, rooms, insts))
  {
    if courses != [] {
      var n := |courses| - 1;
      var init, c := courses[..n], courses[n];
      var prev := DomainMap(init, tss, rooms, insts);
      var d := CourseDomain(c, tss, rooms, insts);
      DomainMapOrder(init, tss, rooms, insts);
      DomainMapSpec(init, tss, rooms, insts);
      MapSetSpec(prev, c.code, d);
      DomainMapOrderStep(courses, prev, d, MapSet(prev, c.code, d));
    }
  }

  lemma DomainMapOrderStep(courses: seq<Course>, prev: seq<Variable>, d: seq<Candidate>, m: seq<Variable>)
    requires courses != []
    requires var init := courses[..|courses| - 1];
      InFirstOccurrenceOrder(init, prev) && forall code :: HasCode(prev, code) <==> CodeListed(init, code)
    requires IsMapSet(prev, courses[|courses| - 1].code, d, m)
    ensures InFirstOccurrenceOrder(courses, m)
  {
    var n := |courses| - 1;
    var code := courses[n].code;
    forall i1, i2, j1, j2 | 0 <= i1 < i2 < |m| && FirstWithCode(courses, j1, m[i1].code) && FirstWithCode(courses, j2, m[i2].code)
      ensures j1 < j2
    {
      assert i1 < |prev| && m[i1].code == prev[i1].code;
      assert HasCode(prev, prev[i1].code);
      FirstInPrefix(courses, j1, m[i1].code);
      if i2 < |prev| {
        assert m[i2].code == prev[i2].code;
        assert HasCode(prev, prev[i2].code);
        FirstInPrefix(courses, j2, m[i2].code);
      } else {
        assert !HasCode(prev, code) && m[i2].code == code;
        FirstNotInPrefix(courses, j2, code);
      }
    }
  }

  /** The first occurrence of a code the prefix lists lies in the prefix. */
  lemma FirstInPrefix(courses: seq<Course>, j: int, code: string)
    requires courses != [] && FirstWithCode(courses, j, code) && CodeListed(courses[..|courses| - 1], code)
    ensures j < |courses| - 1 && FirstWithCode(courses[..|courses| - 1], j, code)
  {
    var init := courses[..|courses| - 1];
    var j0 :| 0 <= j0 < |init| && init[j0].code == code;
    assert courses[j0].code == code;
  }

  /** A code the prefix does not list first occurs at the last course. */
  lemma FirstNotInPrefix(courses: seq<Course>, j: int, code: string)
    requires courses != [] && FirstWithCode(courses, j, code) && !CodeListed(courses[..|courses| - 1], code)
    ensures j == |courses| - 1
  {
    var init := courses[..|courses| - 1];
    forall j' | 0 <= j' < |init| ensures courses[j'].code != code
    {
      assert courses[j'] == init[j'];
    }
  }

  /** After a set, the keys are the old keys and the key that was set. */
  lemma MapSetCodes(vs: seq<Variable>, code: string, d: seq<Candidate>, r: seq<Variable>)
    requires IsMapSet(vs, code, d, r)
    ensures forall x :: HasCode(r, x) <==> HasCode(vs, x) || x == code
  {
    forall x ensures HasCode(r, x) <==> HasCode(vs, x) || x == code
    {
      if HasCode(r, x) && x != code {
        var k :| 0 <= k < |r| && r[k].code == x;
        assert k < |vs| && r[k] == vs[k];
      }
      if HasCode(vs, x) {
        var k :| 0 <= k < |vs| && vs[k].code == x;
        assert r[k].code == x;
      }
      if x == code && !HasCode(vs, x) {
        assert r[|vs|].code == x;
      }
    }
  }

  /** After a set, each entry is either the one that was set or an old entry in its old place. */
  lemma MapSetValues(vs: seq<Variable>, code: string, d: seq<Candidate>, r: seq<Variable>)
    requires IsMapSet(vs, code, d, r)
    ensures forall k :: 0 <= k < |r| ==> r[k] == Variable(code, d) || (k < |vs| && r[k] == vs[k] && vs[k].code != code)
  {
  }

  /** Some course in the list has this code. */
  ghost predicate CodeListed(courses: seq<Course>, code: string)
  {
    exists j :: 0 <= j < |courses| && courses[j].code == code
  }

  lemma DomainMapStep(courses: seq<Course>, tss: seq<TimeSlot>, rooms: seq<Room>, insts: seq<Instructor>)
    requires courses != []
    requires var init := courses[..|courses| - 1];
      MapsCourses(init, tss, rooms, insts, DomainMap(init, tss, rooms, insts))
    requires var c := courses[|courses| - 1];
      var prev := DomainMap(courses[..|courses| - 1], tss, rooms, insts);
      var d := CourseDomain(c, tss, rooms, insts);
      IsMapSet(prev, c.code, d, MapSet(prev, c.code, d))
    ensures MapsCourses(courses, tss, rooms, insts, DomainMap(courses, tss, rooms, insts))
  {
    var n := |courses| - 1;
    var init, c := courses[..n], courses[n];
    var prev := DomainMap(init, tss, rooms, insts);
    var d := CourseDomain(c, tss, rooms, insts);
    var m := DomainMap(courses, tss, rooms, insts);
    assert m == MapSet(prev, c.code, d);
    MapSetCodes(prev, c.code, d, m);
    DomainMapKeys(courses, init, prev, m);
    MapSetValues(prev, c.code, d, m);
    forall k | 0 <= k < |m| ensures HoldsLastDomain(courses, tss, rooms, insts, m[k])
    {
      if m[k] == Variable(c.code, d) {
        assert LastWithCode(courses, n, m[k].code);
      } else {
        assert k < |prev| && m[k] == prev[k] && prev[k].code != c.code;
        LastDomainKept(courses, tss, rooms, insts, m[k]);
      }
    }
  }

  lemma DomainMapKeys(courses: seq<Course>, init: seq<Course>, prev: seq<Variable>, m: seq<Variable>)
    requires courses != [] && init == courses[..|courses| - 1]
    requires forall code :: HasCode(prev, code) <==> CodeListed(init, code)
    requires forall x :: HasCode(m, x) <==> HasCode(prev, x) || x == courses[|courses| - 1].code
    ensures forall code :: HasCode(m, code) <==> CodeListed(courses, code)
  {
    forall code ensures CodeListed(courses, code) <==> CodeListed(init, code) || code == courses[|courses| - 1].code
    {
      if CodeListed(courses, code) && code != courses[|courses| - 1].code {
        var j :| 0 <= j < |courses| && courses[j].code == code;
        assert init[j] == courses[j];
      }
      if CodeListed(init, code) {
        var j :| 0 <= j < |init| && init[j].code == code;
        assert courses[j] == init[j];
      }
    }
  }

  /** The loop of `solve` that fills the domain map, one course at a time. */
  method BuildDomains(courses: seq<Course>, timeslots: seq<TimeSlot>, rooms: seq<Room>, instructors: seq<Instructor>)
    returns (domains: seq<Variable>)
    ensures domains == DomainMap(courses, timeslots, rooms, instructors)
  {
    domains := [];
    for c := 0 to |courses|
      invariant domains == DomainMap(courses[..c], timeslots, rooms, instructors)
    {
      var course := courses[c];
      assert courses[..c + 1][..c] == courses[..c];
      var domain := BuildDomain(course, timeslots, rooms, instructors);
      domains := MapSet(domains, course.code, domain);
    }
    assert courses[..|courses|] == courses;
  }

  /** The variable order: the map's entries sorted by ascending domain size. */
  function MrvOrder(courses: seq<Course>, tss: seq<TimeSlot>, rooms: seq<Room>, insts: seq<Instructor>): seq<Variable>
  {
    SortBy(DomainMap(courses, tss, rooms, insts), DomainSize)
  }

  /**
   * The order is a permutation of the map's entries, with non-decreasing domain sizes,
   * and entries whose domains have equal size keep their insertion order.
   */
  lemma MrvOrderSpec(courses: seq<Course>, tss: seq<TimeSlot>, rooms: seq<Room>, insts: seq<Instructor>)
    ensures var m := DomainMap(courses, tss, rooms, insts);
      var order := MrvOrder(courses, tss, rooms, insts);
      && multiset(order) == multiset(m)
      && (forall i, j :: 0 <= i < j < |order| ==> |order[i].domain| <= |order[j].domain|)
      && (forall n :: WithKey(order, DomainSize, n) == WithKey(m, DomainSize, n))
  {
    var m := DomainMap(courses, tss, rooms, insts);
    SortBySorted(m, DomainSize);
    forall n ensures WithKey(SortBy(m, DomainSize), DomainSize, n) == WithKey(m, DomainSize, n)
    {
      SortByStable(m, DomainSize, n);
    }
  }

  function CodeOf(v: Variable): string { v.code }

  /**
   * The variable order has one entry per distinct course code, and no other, each
   * holding the domain of the last course with its code.
   */
  lemma MrvOrderCodes(courses: seq<Course>, tss: seq<TimeSlot>, rooms: seq<Room>, insts: seq<Instructor>)
    ensures MapsCourses(courses, tss, rooms, insts, MrvOrder(courses, tss, rooms, insts))
  {
    var m := DomainMap(courses, tss, rooms, insts);
    DomainMapSpec(courses, tss, rooms, insts);
    MrvOrderSpec(courses, tss, rooms, insts);
    PermutedMapsCourses(courses, tss, rooms, insts, m, MrvOrder(courses, tss, rooms, insts));
  }

  /** Any reordering of a map's entries describes the courses as the map does. */
  lemma PermutedMapsCourses(courses: seq<Course>, tss: seq<TimeSlot>, rooms: seq<Room>, insts: seq<Instructor>,
                            m: seq<Variable>, order: seq<Variable>)
    requires MapsCourses(courses, tss, rooms, insts, m) && multiset(order) == multiset(m)
    ensures MapsCourses(courses, tss, rooms, insts, order)
  {
    assert DistinctBy(m, CodeOf) by {
      forall i, j | 0 <= i < j < |m| ensures CodeOf(m[i]) != CodeOf(m[j])
      {
        assert m[i].code != m[j].code;
      }
    }
    PermutationKeepsDistinct(m, order, CodeOf);
    forall i, j | 0 <= i < j < |order| ensures order[i].code != order[j].code
    {
      assert CodeOf(order[i]) != CodeOf(order[j]);
    }
    forall code ensures HasCode(order, code) <==> HasCode(m, code)
    {
      if HasCode(order, code) {
        var k :| 0 <= k < |order| && order[k].code == code;
        assert order[k] in multiset(m);
        var p :| 0 <= p < |m| && m[p] == order[k];
      }
      if HasCode(m, code) {
        var k :| 0 <= k < |m| && m[k].code == code;
        assert m[k] in multiset(order);
        var p :| 0 <= p < |order| && order[p] == m[k];
      }
    }
    forall k | 0 <= k < |order| ensures HoldsLastDomain(courses, tss, rooms, insts, order[k])
    {
      assert order[k] in multiset(m);
      var p :| 0 <= p < |m| && m[p] == order[k];
    }
  }
}
