# Timetable constraint solver — a Dafny model

This project models the constraint solver of the timetable generator
(`CspService` in `src/modules/csp/csp.service.ts`). The solver takes the
courses, instructors, rooms and time slots and assigns each course a
(time slot, room, instructor) triple. No instructor and no room may be booked
twice in the same time slot. It works in four steps:

- **Free-text predicates.** `instructorAllowsTimeslot` reads "not on <day>"
  clauses out of an instructor's preference text. `instructorQualified` looks a
  course code up in a comma-separated list.
- **Domain construction.** For every course, three nested loops (time slot,
  room, instructor) collect the candidate triples. A room of another type is
  skipped. An instructor who refuses the slot's day is skipped. When no triple
  survives, the loops run once more without the day test. The domain is stored
  in a `Map` under the course code.
- **Variable ordering.** The map's entries are sorted by domain size
  (minimum remaining values).
- **Search.** A recursive `backtrack` keeps one shared `assignment` list. At each
  level it tries the candidates best score first. A candidate that double-books is
  skipped. Otherwise it pushes the candidate, recurses, and pops it when the
  recursion fails. When the root fails, `solve` throws. Otherwise it returns the
  four-field timetable entries.

Modules, one file each:

- `wrappers.dfy` — `Option` and `Result`.
- `entities.dfy` — the fields of `Course`, `Instructor`, `Room`, `TimeSlot` the
  solver reads, the candidate triple, a placement (the object pushed onto
  `assignment`) and the `TimetableEntry` it is projected to.
- `text.dfy` — the JavaScript string operations the predicates use, on ASCII
  text: case mapping, `trim`, `split`, `replace` of the first occurrence, and
  the global match of `/not on [a-z]+/g`. The match is a left-to-right scanner
  proved equal to the only leftmost, non-overlapping list of matches.
- `sorting.dfy` — a stable sort by an integer key (`Array.prototype.sort` is
  stable). It is proved ordered, a permutation and stable. A uniqueness lemma
  shows that every stable sort gives the same result.
- `preferences.dfy` — `instructorAllowsTimeslot`, `instructorQualified`, the
  room-type test and `scoreCandidate`, with the order in which a level tries
  its candidates.
- `domains.dfy` — the domain loops as methods (`PushProduct`, `PushRow`,
  `PushCells`, `BuildDomain`, `BuildDomains`), each proved equal to a
  specification function. There are lemmas on what a domain holds, on `Map.set`
  as an ordered association list, and on the ordering.
- `search.dfy` — a `Solver` class holding the variable order and the shared
  `assignment`. `ViolatesHard` is a loop. `Backtrack` is the recursive search with
  push and pop. `Solve` returns a `Result`. Lemmas state what a solution
  guarantees.
- `scenarios.dfy` — two preference texts worked through the predicate.

## Model

| member | source | states |
|---|---|---|
| Text.Trim | src/modules/csp/csp.service.ts:31 | `trim`: the result is no longer than the input, neither of its ends is JavaScript whitespace, and text without whitespace is returned unchanged |
| Text.TrimPadded | src/modules/csp/csp.service.ts:38 | `trim` of a text with only whitespace around a core whose ends are not whitespace gives exactly that core, inner spaces kept |
| Text.TrimUnpads | src/modules/csp/csp.service.ts:31 | every text is its trimmed form with only whitespace before and after it, and the trimmed form has no whitespace at either end: `trim` removes the leading and trailing whitespace and nothing else |
| Text.Split | src/modules/csp/csp.service.ts:38 | `split(',')` gives at least one piece and no piece contains the separator |
| Text.JoinSplit | src/modules/csp/csp.service.ts:38 | joining the pieces of a split with the separator gives the text back |
| Text.SplitJoin | src/modules/csp/csp.service.ts:38 | splitting a join of separator-free pieces gives exactly those pieces back |
| Text.IndexOf | src/modules/csp/csp.service.ts:31 | the position found is an occurrence at or after the start, and no earlier position at or after the start is one; none is found only when there is none |
| Text.ReplaceLeadingPrefix | src/modules/csp/csp.service.ts:31 | `replace('not on ', '')` on a text that starts with the prefix leaves exactly the rest of the text |
| Text.ClauseAtIsPrefixOccurrence | src/modules/csp/csp.service.ts:31 | a match of the regular expression starts exactly where "not on " occurs followed by a lower-case letter |
| Text.RunEnd | src/modules/csp/csp.service.ts:31 | the greedy `[a-z]+`: every character before the end is a lower-case letter and the character at the end is not |
| Text.ClauseWord | src/modules/csp/csp.service.ts:31 | the word of a clause is non-empty and made of lower-case letters |
| Text.MatchSpans | src/modules/csp/csp.service.ts:31 | every span the scan reports lies inside the text, at or after where the scan began, and is the whole match of a clause |
| Text.MatchSpansLeftmost | src/modules/csp/csp.service.ts:31 | the scan's spans are clause matches, pairwise non-overlapping, and every clause start lies inside one of them |
| Text.LeftmostMatchesUnique | src/modules/csp/csp.service.ts:31 | any list of leftmost, non-overlapping clause matches covering every clause start equals the scan's list, so the scan is the global match |
| Text.NoClauseNoMatch | src/modules/csp/csp.service.ts:31 | when no clause starts at or after a position, the scan from there matches nothing (the `|| []` case) |
| Text.SkipToClause | src/modules/csp/csp.service.ts:31 | the scan gives the same matches from any position up to the next clause start |
| Text.UnswallowedClauseMatched | src/modules/csp/csp.service.ts:31 | a clause that no earlier match runs over has its word reported |
| Sorting.Insert | src/modules/csp/csp.service.ts:77 | inserting adds the one element and keeps the others (multiset) |
| Sorting.SortBy | src/modules/csp/csp.service.ts:77 | the sort keeps exactly the elements it is given (multiset) |
| Sorting.InsertSorted | src/modules/csp/csp.service.ts:77 | inserting into a key-ordered list keeps it ordered |
| Sorting.SortBySorted | src/modules/csp/csp.service.ts:77 | the sorted list is in non-decreasing key order |
| Sorting.InsertWithKey | src/modules/csp/csp.service.ts:77 | inserting puts the new element first among the elements of its key and changes no other key's elements |
| Sorting.SortByStable | src/modules/csp/csp.service.ts:77 | for every key, the sorted list has that key's elements in their input order |
| Sorting.StableSortUnique | src/modules/csp/csp.service.ts:77 | two key-ordered lists that agree on every key's elements, in order, are equal, so any stable sort gives this model's result |
| Sorting.TwoKeySort | src/modules/csp/csp.service.ts:106-108 | when all keys are one of two values, the sort is the smaller key's elements then the larger key's, each in input order |
| Sorting.PermutationKeepsDistinct | src/modules/csp/csp.service.ts:77 | reordering a list keeps its keys pairwise distinct |
| Preferences.InstructorAllowsTimeslot | src/modules/csp/csp.service.ts:28-29 | a null or empty preference allows every time slot |
| Preferences.MatchedClauseWord | src/modules/csp/csp.service.ts:31 | a match with "not on " replaced away and trimmed is the clause's word |
| Preferences.ForbiddenDaysAreClauseWords | src/modules/csp/csp.service.ts:31 | the forbidden days are exactly the words of the matched clauses, in match order |
| Preferences.AllowsTimeslotIff | src/modules/csp/csp.service.ts:28-33 | a slot is allowed exactly when the preference is null or empty or no matched clause word equals the lower-cased day |
| Preferences.UnswallowedClauseForbids | src/modules/csp/csp.service.ts:30-32 | a "not on <day>" clause that no earlier match runs over refuses that day, in any letter case |
| Preferences.NoClauseAllows | src/modules/csp/csp.service.ts:30-32 | a preference text with no "not on <letter>" in it refuses no day |
| Preferences.InstructorQualified | src/modules/csp/csp.service.ts:36-37 | an instructor with a null or empty list is never qualified |
| Preferences.ItemsOfJoinedCodes | src/modules/csp/csp.service.ts:38 | a list written as comma-separated codes, each with any whitespace around it, has the upper-cased codes as its items, in order |
| Preferences.EveryListPadded | src/modules/csp/csp.service.ts:38 | every qualification list is such a list: comma-free codes without whitespace at their ends, each with whitespace around it |
| Preferences.QualifiedByListedCode | src/modules/csp/csp.service.ts:36-40 | for such a list the instructor is qualified exactly when the list is not empty and some listed code equals the course code, ignoring case |
| Preferences.ScoreCandidate | src/modules/csp/csp.service.ts:92-96 | the score is -5 or 0, and it is negative exactly when the instructor is qualified for the course |
| Preferences.TryOrderQualifiedFirst | src/modules/csp/csp.service.ts:104-108 | the try order is every candidate with a qualified instructor, then every other one, each group in domain order, and nothing added or lost |
| Preferences.TryOrderCandidates | src/modules/csp/csp.service.ts:106-108 | every tried candidate is in the domain and every domain candidate is tried |
| Domains.CellsMembers | src/modules/csp/csp.service.ts:54-57 | the instructor loop pushes a triple exactly when it is for this slot and room, its instructor is listed and the pass keeps that instructor for the slot |
| Domains.RowMembers | src/modules/csp/csp.service.ts:51-59 | the room loop pushes a triple exactly when its room is listed and suits the course and the instructor loop would push it |
| Domains.GridMembers | src/modules/csp/csp.service.ts:50-60 | a pass of the three loops holds a triple exactly when its slot, room and instructor are listed, the room suits the course and the pass keeps the instructor |
| Domains.DomainSound | src/modules/csp/csp.service.ts:48-72 | every domain candidate is made of listed entities with a suitable room; either the preference-honouring pass is non-empty, all its instructors allow their slots and it is the domain, or it is empty and the domain is the relaxed pass |
| Domains.DomainEmptyIff | src/modules/csp/csp.service.ts:48-72 | a domain is empty exactly when there is no time slot, no instructor, or no room that suits the course |
| Domains.PushCells | src/modules/csp/csp.service.ts:54-58 | the instructor loop appends exactly the cells of that slot and room to the domain so far |
| Domains.PushRow | src/modules/csp/csp.service.ts:51-59 | the room loop, with the type test of line 53/66, appends exactly the row of that slot |
| Domains.PushProduct | src/modules/csp/csp.service.ts:50-60 | one pass of the three loops builds exactly the pass's triples in time slot, room, instructor order |
| Domains.BuildDomain | src/modules/csp/csp.service.ts:49-72 | the domain built with the one-shot relaxation is the course's domain |
| Domains.MapSetSpec | src/modules/csp/csp.service.ts:73 | `Map.set` on distinct keys replaces a present key's value in place, appends a new key at the end, and keeps the keys distinct |
| Domains.DomainMapSpec | src/modules/csp/csp.service.ts:47-74 | the filled map has distinct codes, holds exactly the listed course codes, and under each code the domain of the last course with that code |
| Domains.DomainMapOrder | src/modules/csp/csp.service.ts:47-74 | the map's entries come in the order in which their codes first occur among the courses (a `Map` keeps insertion order and `set` on a present key keeps its place) |
| Domains.BuildDomains | src/modules/csp/csp.service.ts:47-74 | the course loop fills exactly that map |
| Domains.MrvOrderSpec | src/modules/csp/csp.service.ts:77 | the order is a permutation of the map's entries, domain sizes never decrease along it, and entries of equal size keep insertion order |
| Domains.MrvOrderCodes | src/modules/csp/csp.service.ts:77 | the order, like the map, has distinct codes, exactly the listed codes and each code's last domain |
| Search.Solver.constructor | src/modules/csp/csp.service.ts:77-79 | the search starts from the order and an empty assignment |
| Search.Solver.ViolatesHard | src/modules/csp/csp.service.ts:81-90 | true exactly when some committed placement has the same instructor and time slot, or the same room and time slot |
| Search.AppendConflictFree | src/modules/csp/csp.service.ts:120-121 | pushing onto a list without double-bookings keeps it so exactly when `violatesHard` is false |
| Search.ConflictBlocks | src/modules/csp/csp.service.ts:120 | a candidate that double-books can be part of no complete assignment |
| Search.EmptyDomainBlocks | src/modules/csp/csp.service.ts:102 | a variable with an empty domain leaves no complete assignment at all |
| Search.AllCandidatesBlocked | src/modules/csp/csp.service.ts:110-125 | when every candidate of the next domain is a dead end, so is the partial assignment |
| Search.Solver.Backtrack | src/modules/csp/csp.service.ts:98-126 | on success the list is a complete assignment extending the old list, and at this level and every deeper one the placement is the first in the try order that is not a dead end; on failure the list is unchanged (push then pop) and no complete assignment extends it; an empty domain fails |
| Search.FirstViableUnique | src/modules/csp/csp.service.ts:110-125 | at most one complete assignment takes the first viable candidate at every level, so the result of the search is determined by its inputs |
| Search.ProjectedEntriesConflictFree | src/modules/csp/csp.service.ts:132-137 | the entries of placements without double-booking book no instructor and no room twice in one time slot, and list the placements' course codes in order |
| Search.Solve | src/modules/csp/csp.service.ts:128-137 | on success the entries are the projection of the complete assignment of the ordered variables that takes the first viable candidate at every level, and no two entries double-book; otherwise the error is the solver's message and no complete assignment exists |
| Search.SolutionMeetsConstraints | src/modules/csp/csp.service.ts:43-137 | in a complete assignment every course code is placed, no code twice, each placement suits the last course with its code (listed entities, room type, and the instructor's days unless the relaxation applied), and nobody and no room is booked twice in one time slot |
| Scenarios.SundayRefused | src/modules/csp/csp.service.ts:28-33 | "Not on Sunday" refuses a Sunday slot and allows a Monday slot |
| Scenarios.SwallowedWords | src/modules/csp/csp.service.ts:31 | in "not on not on monday" the only match is "not on not", so the only forbidden day is "not" |
| Scenarios.SwallowedClauseAllowsMonday | src/modules/csp/csp.service.ts:28-33 | so an instructor who wrote "not on not on monday" is still offered Monday slots |

## Where the documented design and the code differ

The model follows the code in each case:

- The design speaks of course sections expanded into one variable per weekly
  session. The code's variables are the courses themselves, keyed by `code`. A
  repeated code keeps its first position in the map and the last course's
  domain.
- The design's room-type rule lets a "LECTURE AND LAB" course use either room
  type, and adds a capacity filter. The code compares the two types
  case-insensitively. It skips the test when either type is empty, and it has
  no capacity test.
- The design's score gives -50 for a qualified instructor and adds other
  bonuses and penalties. The code's score is -5 for a qualified instructor and 0
  otherwise.
- The design collects metrics and counters. The code has none.

## Left out

- `CspService.loadAll` and the data source: database I/O. The four entity lists
  are parameters of `Solve`.
- Unicode: `toLowerCase`, `toUpperCase` and the regular expression are modelled
  on ASCII letters only. `trim` uses the full JavaScript whitespace set.
- General regular expressions: only `/not on [a-z]+/g` is modelled, by a
  dedicated scanner.
- JavaScript falsiness: a null or undefined course or room type is modelled as
  the empty string, since the code treats both alike. A null preference or
  qualification list is `None`.
- `courses.find(c => c.code === courseCode)`: scoring reads only the found
  course's `code`, which equals `courseCode`, so the model passes the code.
- Object identity: candidates, placements and entities are values. The spread
  copy with a `score` field is the `Scored` pair.
- The thrown `Error` is the `Failure` case of a `Result` carrying the same
  message.
- The call stack: JavaScript recursion depth is bounded by the engine, while
  the model's recursion is bounded only by the number of variables. Time slot
  ids are unbounded integers.
- The storing of the returned entries by the timetable service and the HTTP
  layer are not part of this model.
