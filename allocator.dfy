/**
 * The server-side seat allocator, `allocate_students_updated` in app.py:
 * students of the selected years are seated year by year (ascending) and,
 * inside a year, branch by branch (ascending), each branch in input order;
 * every classroom takes at most min(Capacity, 40) students of one year and
 * one branch, and classrooms are consumed in input order.
 *
 * `AllocateStudents` is the step-by-step loop of the source; `Allocation`
 * is the same computation written as a function (via `PlanRooms`), and the
 * method is proved to return exactly its value. The guarantees are lemmas
 * about `PlanRooms` and `Allocation`.
 */
module Allocator {
  import opened Wrappers
  import opened Text
  import opened Grouping

  /** One row of the students table. `handType` is None when the column is absent. */
  datatype Student = Student(rollNumber: string, year: string, branch: string, handType: Option<string>)

  /** One row of the classrooms table, with `Capacity` already read as an integer. */
  datatype Classroom = Classroom(roomId: string, capacity: int)

  /** One element of the `allocation` list of the response. */
  datatype AllocationEntry = AllocationEntry(
    roomId: string, branch: string, year: string,
    firstRoll: string, lastRoll: string,
    totalStudents: nat, leftHandedChairs: Option<nat>)

  /** The dictionary the allocator returns: success with its totals, or an error message. */
  datatype AllocationResult =
    | Allocated(allocation: seq<AllocationEntry>, totalStudents: nat, totalAllocated: nat,
                selectedYears: seq<string>, roomsUsed: nat)
    | NotAllocated(error: string)

  /** No room seats more than this many students, whatever its capacity. */
  const MaxPerRoom: int := 40

  function YearOf(s: Student): string { s.year }

  function BranchOf(s: Student): string { s.branch }

  /** `min(int(classroom['Capacity']), 40)`. */
  function RoomCapacity(c: Classroom): int
  {
    if c.capacity < MaxPerRoom then c.capacity else MaxPerRoom
  }

  /**
   * Every classroom can seat somebody. Once the source reaches a room with a
   * capacity of 0 or less while students remain, its filling loop places
   * nobody there, never advances to the next room, and never terminates.
   * Inputs whose unusable rooms are never reached would terminate; they are
   * excluded too.
   */
  predicate UsableRooms(classrooms: seq<Classroom>)
  {
    forall i :: 0 <= i < |classrooms| ==> classrooms[i].capacity > 0
  }

  /** `[s for s in students if s['Year'] in selected_years]`. */
  function SelectedStudents(students: seq<Student>, years: seq<string>): (r: seq<Student>)
    ensures forall s :: multiset(r)[s] == if s.year in years then multiset(students)[s] else 0
    ensures forall i :: 0 <= i < |r| ==> r[i].year in years
  {
    if students == [] then []
    else
      var init, s := students[..|students| - 1], students[|students| - 1];
      assert students == init + [s];
      SelectedStudents(init, years) + (if s.year in years then [s] else [])
  }

  /** The positions of `students` whose year is selected, in increasing order. */
  function SelectedPositions(students: seq<Student>, years: seq<string>): seq<nat>
  {
    if students == [] then []
    else
      SelectedPositions(students[..|students| - 1], years)
      + (if students[|students| - 1].year in years then [|students| - 1] else [])
  }

  /**
   * The comprehension keeps input order: its result is `students` read at
   * strictly increasing positions, and every student of a selected year is
   * read at one of them.
   */
  lemma {:induction false} SelectedStudentsInOrder(students: seq<Student>, years: seq<string>)
    returns (pos: seq<nat>)
    ensures Embeds(SelectedStudents(students, years), students, pos)
    ensures forall p :: 0 <= p < |students| && students[p].year in years ==> p in pos
  {
    pos := SelectedPositions(students, years);
    SelectedPositionsEmbed(students, years);
    SelectedPositionsCover(students, years);
  }

  lemma {:induction false} SelectedPositionsEmbed(students: seq<Student>, years: seq<string>)
    ensures Embeds(SelectedStudents(students, years), students, SelectedPositions(students, years))
  {
    if students != [] {
      var init, s := students[..|students| - 1], students[|students| - 1];
      SelectedPositionsEmbed(init, years);
      SelectedStudentsLast(students, years);
      TakeNext(students, |students| - 1);
      EmbedsSnoc(init, s, SelectedStudents(init, years), SelectedPositions(init, years), s.year in years,
                 students, SelectedStudents(students, years), SelectedPositions(students, years));
    }
  }

  lemma {:induction false} SelectedPositionsCover(students: seq<Student>, years: seq<string>)
    ensures forall p :: 0 <= p < |students| && students[p].year in years ==> p in SelectedPositions(students, years)
  {
    if students != [] {
      var init := students[..|students| - 1];
      var p0 := SelectedPositions(init, years);
      SelectedPositionsCover(init, years);
      forall p | 0 <= p < |init| && students[p].year in years ensures p in p0 {
        assert init[p] == students[p];
      }
      CoverLast(students, years, p0, SelectedPositions(students, years));
    }
  }

  /** Positions of the selected-year students, extended by the last student. */
  lemma {:induction false} CoverLast(students: seq<Student>, years: seq<string>, p0: seq<nat>, pos: seq<nat>)
    requires students != []
    requires forall p :: 0 <= p < |students| - 1 && students[p].year in years ==> p in p0
    requires pos == if students[|students| - 1].year in years then p0 + [|students| - 1] else p0
    ensures forall p :: 0 <= p < |students| && students[p].year in years ==> p in pos
  {
    forall p | 0 <= p < |students| && students[p].year in years ensures p in pos {
      if p < |students| - 1 {
        var k :| 0 <= k < |p0| && p0[k] == p;
        assert pos[k] == p;
      } else {
        assert pos[|p0|] == p;
      }
    }
  }

  lemma {:induction false} SelectedStudentsLast(students: seq<Student>, years: seq<string>)
    requires students != []
    ensures var s := students[|students| - 1];
      SelectedStudents(students, years)
      == SelectedStudents(students[..|students| - 1], years) + (if s.year in years then [s] else [])
  {
  }

  /** `s.get('HandType', 'R') == 'L'`. */
  predicate IsLeftHanded(s: Student)
  {
    (match s.handType case Some(h) => h case None => "R") == "L"
  }

  /** `sum(1 for s in room_students if s.get('HandType', 'R') == 'L')`. */
  function CountLeftHanded(ss: seq<Student>): (n: nat)
    ensures n <= |ss|
  {
    if ss == [] then 0 else (if IsLeftHanded(ss[0]) then 1 else 0) + CountLeftHanded(ss[1..])
  }

  // ------------------------------------------------------- the plan, as a function

  /** The students of one branch of one year, still to be seated, in input order. */
  datatype BranchQueue = BranchQueue(year: string, branch: string, students: seq<Student>)

  /** The students seated in one classroom. */
  datatype Placement = Placement(room: Classroom, year: string, branch: string, students: seq<Student>)

  datatype Plan = Planned(placements: seq<Placement>) | OutOfRooms(year: string, branch: string)

  function QueueSize(qs: seq<BranchQueue>): nat
  {
    if qs == [] then 0 else |qs[0].students| + QueueSize(qs[1..])
  }

  /** Put `ps` in front of the placements of a successful plan; a failure stays a failure. */
  function Prepend(ps: seq<Placement>, plan: Plan): Plan
  {
    match plan
    case Planned(rest) => Planned(ps + rest)
    case OutOfRooms(_, _) => plan
  }

  /**
   * Seat the queues in order into `classrooms[idx..]`: each room takes the
   * next min(capacity, 40) students of the current queue; an empty queue is
   * skipped; a non-empty queue with no room left is a failure.
   */
  function PlanRooms(queues: seq<BranchQueue>, classrooms: seq<Classroom>, idx: nat): (r: Plan)
    requires UsableRooms(classrooms)
    ensures r.Planned? && r.placements != [] ==> idx + |r.placements| <= |classrooms|
    ensures r.Planned? ==> forall j :: 0 <= j < |r.placements| ==>
      r.placements[j].room == classrooms[idx + j]
      && 1 <= |r.placements[j].students| <= RoomCapacity(classrooms[idx + j])
    decreases QueueSize(queues), |queues|
  {
    if queues == [] then Planned([])
    else if queues[0].students == [] then PlanRooms(queues[1..], classrooms, idx)
    else if idx >= |classrooms| then OutOfRooms(queues[0].year, queues[0].branch)
    else
      var q, room := queues[0], classrooms[idx];
      var n := if RoomCapacity(room) < |q.students| then RoomCapacity(room) else |q.students|;
      var rest := [BranchQueue(q.year, q.branch, q.students[n..])] + queues[1..];
      assert rest[1..] == queues[1..];
      Prepend([Placement(room, q.year, q.branch, q.students[..n])], PlanRooms(rest, classrooms, idx + 1))
  }

  /** The queues of one year: one per branch of `branches`, each in input order. */
  function BranchQueues(year: string, yearStudents: seq<Student>, branches: seq<string>): seq<BranchQueue>
  {
    if branches == [] then []
    else [BranchQueue(year, branches[0], Select(yearStudents, BranchOf, branches[0]))]
         + BranchQueues(year, yearStudents, branches[1..])
  }

  /** The queues of one year, branches in sorted order. */
  function YearBranchQueues(year: string, yearStudents: seq<Student>): seq<BranchQueue>
  {
    BranchQueues(year, yearStudents, SortStrings(FirstSeen(yearStudents, BranchOf)))
  }

  /** The queues of `years`, one year after the other, branches sorted inside each year. */
  function YearQueues(filtered: seq<Student>, years: seq<string>): seq<BranchQueue>
  {
    if years == [] then []
    else
      YearBranchQueues(years[0], Select(filtered, YearOf, years[0])) + YearQueues(filtered, years[1..])
  }

  /** All queues: years sorted, then branches sorted. */
  function Queues(filtered: seq<Student>): seq<BranchQueue>
  {
    YearQueues(filtered, SortStrings(FirstSeen(filtered, YearOf)))
  }

  function AllocationPlan(students: seq<Student>, classrooms: seq<Classroom>, years: seq<string>): Plan
    requires UsableRooms(classrooms)
  {
    PlanRooms(Queues(SelectedStudents(students, years)), classrooms, 0)
  }

  /** The entry the source appends for a non-empty room. */
  function EntryOf(p: Placement): AllocationEntry
    requires p.students != []
  {
    var lh := CountLeftHanded(p.students);
    AllocationEntry(p.room.roomId, p.branch, p.year,
                    p.students[0].rollNumber, p.students[|p.students| - 1].rollNumber,
                    |p.students|, if lh > 0 then Some(lh) else None)
  }

  predicate NonEmptyPlacements(ps: seq<Placement>)
  {
    forall j :: 0 <= j < |ps| ==> ps[j].students != []
  }

  function Entries(ps: seq<Placement>): seq<AllocationEntry>
    requires NonEmptyPlacements(ps)
  {
    seq(|ps|, j requires 0 <= j < |ps| => EntryOf(ps[j]))
  }

  /** Number of students seated by `ps`. */
  function Seated(ps: seq<Placement>): nat
  {
    if ps == [] then 0 else Seated(ps[..|ps| - 1]) + |ps[|ps| - 1].students|
  }

  function OutOfRoomsMessage(year: string, branch: string): string
  {
    "Not enough classrooms! Need more rooms for Year " + year + ", Branch " + branch
  }

  /** What `allocate_students_updated` returns, as a function of its inputs. */
  function Allocation(students: seq<Student>, classrooms: seq<Classroom>, years: seq<string>): AllocationResult
    requires UsableRooms(classrooms)
  {
    match AllocationPlan(students, classrooms, years)
    case Planned(ps) =>
      Allocated(Entries(ps), |SelectedStudents(students, years)|, Seated(ps), years, |ps|)
    case OutOfRooms(year, branch) => NotAllocated(OutOfRoomsMessage(year, branch))
  }

  // ------------------------------------------------- unfolding steps of PlanRooms

  lemma {:induction false} PrependAssoc(ps: seq<Placement>, qs: seq<Placement>, plan: Plan)
    ensures Prepend(ps, Prepend(qs, plan)) == Prepend(ps + qs, plan)
  {
    if plan.Planned? { assert ps + (qs + plan.placements) == (ps + qs) + plan.placements; }
  }

  /** Seat `tail` after a plan for the first queue, from the room that plan stopped at. */
  function Continue(first: Plan, tail: seq<BranchQueue>, classrooms: seq<Classroom>, idx: nat): Plan
    requires UsableRooms(classrooms)
  {
    match first
    case Planned(ps) => Prepend(ps, PlanRooms(tail, classrooms, idx + |ps|))
    case OutOfRooms(_, _) => first
  }

  /** Planning a queue and then the rest is planning them together. */
  lemma {:induction false} PlanRoomsCompose(q: BranchQueue, tail: seq<BranchQueue>, classrooms: seq<Classroom>, idx: nat)
    requires UsableRooms(classrooms)
    ensures PlanRooms([q] + tail, classrooms, idx) == Continue(PlanRooms([q], classrooms, idx), tail, classrooms, idx)
    decreases |q.students|
  {
    assert ([q] + tail)[1..] == tail && ([q] + tail)[0] == q;
    assert [q][1..] == [];
    if q.students == [] {
      assert PlanRooms([q], classrooms, idx) == Planned([]);
      PrependNothing(PlanRooms(tail, classrooms, idx));
    } else if idx < |classrooms| {
      var room := classrooms[idx];
      var n := if RoomCapacity(room) < |q.students| then RoomCapacity(room) else |q.students|;
      var q' := BranchQueue(q.year, q.branch, q.students[n..]);
      var p := Placement(room, q.year, q.branch, q.students[..n]);
      assert PlanRooms([q] + tail, classrooms, idx) == Prepend([p], PlanRooms([q'] + tail, classrooms, idx + 1)) by {
        assert ([q'] + tail)[1..] == tail;
      }
      assert PlanRooms([q], classrooms, idx) == Prepend([p], PlanRooms([q'], classrooms, idx + 1)) by {
        assert [q'] + [q][1..] == [q'];
      }
      PlanRoomsCompose(q', tail, classrooms, idx + 1);
      ContinuePrepend(p, PlanRooms([q'], classrooms, idx + 1), tail, classrooms, idx);
    }
  }

  /** Continuing after a plan with one more room in front is continuing after the plan, with that room in front. */
  lemma {:induction false} ContinuePrepend(p: Placement, inner: Plan, tail: seq<BranchQueue>, classrooms: seq<Classroom>, idx: nat)
    requires UsableRooms(classrooms)
    ensures Continue(Prepend([p], inner), tail, classrooms, idx) == Prepend([p], Continue(inner, tail, classrooms, idx + 1))
  {
    if inner.Planned? {
      var rest := PlanRooms(tail, classrooms, idx + 1 + |inner.placements|);
      assert |[p] + inner.placements| == 1 + |inner.placements|;
      PrependAssoc([p], inner.placements, rest);
    }
  }

  lemma {:induction false} PrependNothing(plan: Plan)
    ensures Prepend([], plan) == plan
  {
    if plan.Planned? { assert [] + plan.placements == plan.placements; }
  }

  /** Planning two lists of queues one after the other is planning their concatenation. */
  lemma {:induction false} PlanRoomsAppend(qs: seq<BranchQueue>, tail: seq<BranchQueue>, classrooms: seq<Classroom>, idx: nat)
    requires UsableRooms(classrooms)
    ensures PlanRooms(qs + tail, classrooms, idx) == Continue(PlanRooms(qs, classrooms, idx), tail, classrooms, idx)
    decreases |qs|
  {
    if qs == [] {
      assert qs + tail == tail;
      PrependNothing(PlanRooms(tail, classrooms, idx));
    } else {
      var q, more := qs[0], qs[1..];
      SplitHead(qs, tail);
      var first := PlanRooms([q], classrooms, idx);
      PlanRoomsCompose(q, more + tail, classrooms, idx);
      PlanRoomsCompose(q, more, classrooms, idx);
      if first.Planned? {
        PlanRoomsAppend(more, tail, classrooms, idx + |first.placements|);
      }
      ContinueAppend(first, more, tail, classrooms, idx);
    }
  }

  /** Continuing a plan with `more + tail` is continuing it with `more`, then with `tail`,
      given that planning `more + tail` splits the same way. */
  lemma {:induction false} ContinueAppend(first: Plan, more: seq<BranchQueue>, tail: seq<BranchQueue>, classrooms: seq<Classroom>, idx: nat)
    requires UsableRooms(classrooms)
    requires first.Planned? ==>
      PlanRooms(more + tail, classrooms, idx + |first.placements|)
      == Continue(PlanRooms(more, classrooms, idx + |first.placements|), tail, classrooms, idx + |first.placements|)
    ensures Continue(first, more + tail, classrooms, idx) == Continue(Continue(first, more, classrooms, idx), tail, classrooms, idx)
  {
    if first.Planned? {
      var ps := first.placements;
      var second := PlanRooms(more, classrooms, idx + |ps|);
      var both := PlanRooms(more + tail, classrooms, idx + |ps|);
      assert Continue(first, more + tail, classrooms, idx) == Prepend(ps, both);
      assert Continue(first, more, classrooms, idx) == Prepend(ps, second);
      ContinueAfter(ps, second, tail, classrooms, idx);
    } else {
      assert Continue(first, more, classrooms, idx) == first;
    }
  }

  /** A non-empty list of queues is its first queue followed by the rest. */
  lemma {:induction false} SplitHead<T>(qs: seq<T>, tail: seq<T>)
    requires |qs| > 0
    ensures qs + tail == [qs[0]] + (qs[1..] + tail) && qs == [qs[0]] + qs[1..]
  {
    assert qs == [qs[0]] + qs[1..];
  }

  /** Continuing after `ps` then a plan is continuing after the plan, `ps` in front. */
  lemma {:induction false} ContinueAfter(ps: seq<Placement>, second: Plan, tail: seq<BranchQueue>, classrooms: seq<Classroom>, idx: nat)
    requires UsableRooms(classrooms)
    ensures Prepend(ps, Continue(second, tail, classrooms, idx + |ps|))
         == Continue(Prepend(ps, second), tail, classrooms, idx)
  {
    if second.Planned? {
      assert |ps + second.placements| == |ps| + |second.placements|;
      PrependAssoc(ps, second.placements, PlanRooms(tail, classrooms, idx + |ps| + |second.placements|));
    }
  }

  /** After the queues `qs` are seated as `qps`, what remains of the plan is `tail`'s. */
  lemma {:induction false} PlanStep(qs: seq<BranchQueue>, tail: seq<BranchQueue>, classrooms: seq<Classroom>,
                                   idx: nat, ps: seq<Placement>, qps: seq<Placement>, plan: Plan,
                                   ps': seq<Placement>, idx': nat)
    requires UsableRooms(classrooms)
    requires plan == Prepend(ps, PlanRooms(qs + tail, classrooms, idx))
    requires PlanRooms(qs, classrooms, idx) == Planned(qps)
    requires ps' == ps + qps && idx' == idx + |qps|
    ensures plan == Prepend(ps', PlanRooms(tail, classrooms, idx'))
  {
    PlanRoomsAppend(qs, tail, classrooms, idx);
    PrependAssoc(ps, qps, PlanRooms(tail, classrooms, idx + |qps|));
  }

  /**
   * The loop invariant of the seating loops: `placed` are the rooms filled
   * so far, `entries` and `seated` what the source has accumulated for them,
   * and planning the queues still waiting (`rest`) from room `idx` on yields
   * the rest of `plan`.
   */
  predicate Seating(classrooms: seq<Classroom>, plan: Plan, placed: seq<Placement>,
                    entries: seq<AllocationEntry>, seated: nat, rest: seq<BranchQueue>, idx: nat)
  {
    UsableRooms(classrooms) && NonEmptyPlacements(placed) && entries == Entries(placed)
    && seated == Seated(placed) && plan == Prepend(placed, PlanRooms(rest, classrooms, idx))
  }

  /** Seating the queues `qs` in front of `tail` moves their placements into `placed`. */
  lemma {:induction false} SeatingStep(classrooms: seq<Classroom>, plan: Plan, placed: seq<Placement>,
                                      entries: seq<AllocationEntry>, seated: nat, qs: seq<BranchQueue>,
                                      tail: seq<BranchQueue>, idx: nat,
                                      ps: seq<Placement>, qentries: seq<AllocationEntry>, qseated: nat, nextIdx: nat)
    requires Seating(classrooms, plan, placed, entries, seated, qs + tail, idx)
    requires PlanRooms(qs, classrooms, idx) == Planned(ps)
    requires NonEmptyPlacements(ps) && qentries == Entries(ps) && qseated == Seated(ps) && nextIdx == idx + |ps|
    ensures Seating(classrooms, plan, placed + ps, entries + qentries, seated + qseated, tail, nextIdx)
  {
    PlanStep(qs, tail, classrooms, idx, placed, ps, plan, placed + ps, nextIdx);
    EntriesAppend(placed, ps);
    SeatedAppend(placed, ps);
  }

  /** One iteration of SeatBranch's loop: the room takes the next `n` students of the queue. */
  lemma {:induction false} SeatStep(year: string, branch: string, queue: seq<Student>, classrooms: seq<Classroom>,
                 idx: nat, n: nat, ps: seq<Placement>, plan: Plan)
    requires UsableRooms(classrooms)
    requires queue != [] && idx < |classrooms|
    requires n == if RoomCapacity(classrooms[idx]) < |queue| then RoomCapacity(classrooms[idx]) else |queue|
    requires plan == Prepend(ps, PlanRooms([BranchQueue(year, branch, queue)], classrooms, idx))
    ensures plan == Prepend(ps + [Placement(classrooms[idx], year, branch, queue[..n])],
                            PlanRooms([BranchQueue(year, branch, queue[n..])], classrooms, idx + 1))
  {
    assert [BranchQueue(year, branch, queue)][1..] == [];
    assert [BranchQueue(year, branch, queue[n..])] + [] == [BranchQueue(year, branch, queue[n..])];
    PrependAssoc(ps, [Placement(classrooms[idx], year, branch, queue[..n])],
                 PlanRooms([BranchQueue(year, branch, queue[n..])], classrooms, idx + 1));
  }

  /** One room of SeatBranch's loop, with the entry and count it adds. */
  lemma {:induction false} RoomStep(year: string, branch: string, queue: seq<Student>, classrooms: seq<Classroom>,
                 idx: nat, n: nat, ps: seq<Placement>, plan: Plan, entries: seq<AllocationEntry>, seated: nat)
    requires UsableRooms(classrooms)
    requires queue != [] && idx < |classrooms| && n > 0
    requires n == if RoomCapacity(classrooms[idx]) < |queue| then RoomCapacity(classrooms[idx]) else |queue|
    requires plan == Prepend(ps, PlanRooms([BranchQueue(year, branch, queue)], classrooms, idx))
    requires NonEmptyPlacements(ps) && entries == Entries(ps) && seated == Seated(ps)
    ensures var p := Placement(classrooms[idx], year, branch, queue[..n]);
      Seating(classrooms, plan, ps + [p], entries + [EntryOf(p)], seated + n,
              [BranchQueue(year, branch, queue[n..])], idx + 1)
  {
    var p := Placement(classrooms[idx], year, branch, queue[..n]);
    SeatStep(year, branch, queue, classrooms, idx, n, ps, plan);
    SeatedAppend(ps, [p]);
    EntriesAppend(ps, [p]);
  }

  /** SeatBranch's failure: a queue that is not empty when the classrooms have run out. */
  lemma {:induction false} OutOfRoomsStep(year: string, branch: string, queue: seq<Student>, classrooms: seq<Classroom>,
                 idx: nat, ps: seq<Placement>, plan: Plan)
    requires UsableRooms(classrooms)
    requires queue != [] && idx >= |classrooms|
    requires plan == Prepend(ps, PlanRooms([BranchQueue(year, branch, queue)], classrooms, idx))
    ensures plan == OutOfRooms(year, branch)
  {
  }

  /** SeatBranch's success: an empty queue adds no placement. */
  lemma {:induction false} EmptyQueueStep(year: string, branch: string, queue: seq<Student>, classrooms: seq<Classroom>,
                 idx: nat, ps: seq<Placement>, plan: Plan)
    requires UsableRooms(classrooms)
    requires queue == []
    requires plan == Prepend(ps, PlanRooms([BranchQueue(year, branch, queue)], classrooms, idx))
    ensures plan == Planned(ps)
  {
    assert [BranchQueue(year, branch, queue)][1..] == [];
    assert ps + [] == ps;
  }

  lemma {:induction false} BranchQueuesAt(year: string, yearStudents: seq<Student>, branches: seq<string>, b: nat)
    requires b < |branches|
    ensures BranchQueues(year, yearStudents, branches[b..])
         == [BranchQueue(year, branches[b], Select(yearStudents, BranchOf, branches[b]))]
            + BranchQueues(year, yearStudents, branches[b + 1..])
  {
    assert branches[b..][1..] == branches[b + 1..];
  }

  lemma {:induction false} YearQueuesAt(filtered: seq<Student>, years: seq<string>, y: nat)
    requires y < |years|
    ensures YearQueues(filtered, years[y..])
         == YearBranchQueues(years[y], Select(filtered, YearOf, years[y])) + YearQueues(filtered, years[y + 1..])
  {
    assert years[y..][1..] == years[y + 1..];
  }

  lemma {:induction false} EntriesAppend(ps: seq<Placement>, qs: seq<Placement>)
    requires NonEmptyPlacements(ps) && NonEmptyPlacements(qs)
    ensures NonEmptyPlacements(ps + qs)
    ensures Entries(ps + qs) == Entries(ps) + Entries(qs)
  {
  }

  lemma {:induction false} SeatedAppend(ps: seq<Placement>, qs: seq<Placement>)
    ensures Seated(ps + qs) == Seated(ps) + Seated(qs)
    decreases |qs|
  {
    if qs != [] {
      var init := qs[..|qs| - 1];
      assert (ps + qs)[..|ps + qs| - 1] == ps + init;
      SeatedAppend(ps, init);
    } else {
      assert ps + qs == ps;
    }
  }

  lemma {:induction false} AllocationSucceeds(students: seq<Student>, classrooms: seq<Classroom>, years: seq<string>,
                                             ps: seq<Placement>, plan: Plan)
    requires UsableRooms(classrooms) && NonEmptyPlacements(ps)
    requires plan == AllocationPlan(students, classrooms, years) && plan == Planned(ps)
    ensures Allocation(students, classrooms, years)
         == Allocated(Entries(ps), |SelectedStudents(students, years)|, Seated(ps), years, |Entries(ps)|)
  {
  }

  lemma {:induction false} AllocationFails(students: seq<Student>, classrooms: seq<Classroom>, years: seq<string>,
                                          ps: seq<Placement>, year: string, branch: string, plan: Plan)
    requires UsableRooms(classrooms)
    requires plan == AllocationPlan(students, classrooms, years)
    requires plan == Prepend(ps, OutOfRooms(year, branch))
    ensures Allocation(students, classrooms, years) == NotAllocated(OutOfRoomsMessage(year, branch))
  {
  }

  // ----------------------------------------------------------------- the methods

  /**
   * `while len(remaining_students) > 0 and len(room_students) < room_capacity:
   * room_students.append(remaining_students.pop(0))`: the room takes the first
   * min(capacity, |remaining|) students, in order, and the rest stay queued.
   */
  method FillRoom(remaining: seq<Student>, roomCapacity: int) returns (roomStudents: seq<Student>, left: seq<Student>)
    ensures var n := if roomCapacity < 0 then 0 else if roomCapacity < |remaining| then roomCapacity else |remaining|;
      roomStudents == remaining[..n] && left == remaining[n..]
  {
    roomStudents, left := [], remaining;
    while |left| > 0 && |roomStudents| < roomCapacity
      invariant roomStudents + left == remaining
      invariant |roomStudents| <= roomCapacity || roomStudents == []
      decreases |left|
    {
      roomStudents := roomStudents + [left[0]];
      left := left[1..];
    }
    assert roomStudents == remaining[..|roomStudents|];
  }

  /**
   * The body of `for branch in sorted_branches`: `while len(remaining_students) > 0`
   * takes the next classroom, moves students into it with `pop(0)` up to its
   * capacity, and appends the room's entry; it fails when the classrooms run out.
   * `ok` is false exactly on that failure; otherwise the entries, the number
   * of students seated and the next classroom index are those of the plan.
   */
  method SeatBranch(year: string, branch: string, branchStudents: seq<Student>,
                    classrooms: seq<Classroom>, classroomIdx: nat)
    returns (ok: bool, entries: seq<AllocationEntry>, seated: nat, nextIdx: nat, ghost ps: seq<Placement>)
    requires UsableRooms(classrooms)
    ensures var plan := PlanRooms([BranchQueue(year, branch, branchStudents)], classrooms, classroomIdx);
      (ok <==> plan.Planned?)
      && (!ok ==> plan == OutOfRooms(year, branch))
      && (ok ==> plan == Planned(ps) && NonEmptyPlacements(ps) && entries == Entries(ps) && seated == Seated(ps)
                 && nextIdx == classroomIdx + |ps| && seated == |branchStudents|)
  {
    ghost var plan := PlanRooms([BranchQueue(year, branch, branchStudents)], classrooms, classroomIdx);
    var remaining := branchStudents;
    entries, seated, nextIdx, ps := [], 0, classroomIdx, [];
    ok := true;
    while |remaining| > 0
      invariant nextIdx == classroomIdx + |ps| && seated + |remaining| == |branchStudents|
      invariant Seating(classrooms, plan, ps, entries, seated, [BranchQueue(year, branch, remaining)], nextIdx)
      decreases |remaining|
    {
      if nextIdx >= |classrooms| {
        ok := false;
        break;
      }
      var classroom := classrooms[nextIdx];
      assert RoomCapacity(classroom) > 0 by {
        assert classroom.capacity > 0;
      }
      ghost var queue := remaining;
      var roomStudents;
      roomStudents, remaining := FillRoom(remaining, RoomCapacity(classroom));
      // `if len(room_students) > 0` always holds: the room seats at least one.
      assert |roomStudents| > 0 && |remaining| < |queue|;
      var p := Placement(classroom, year, branch, roomStudents);
      RoomStep(year, branch, queue, classrooms, nextIdx, |roomStudents|, ps, plan, entries, seated);
      entries := entries + [EntryOf(p)];
      seated := seated + |roomStudents|;
      ps := ps + [p];
      nextIdx := nextIdx + 1;
    }
    if ok {
      EmptyQueueStep(year, branch, remaining, classrooms, nextIdx, ps, plan);
    } else {
      OutOfRoomsStep(year, branch, remaining, classrooms, nextIdx, ps, plan);
    }
  }

  /**
   * The body of `for year in sorted_years`: group the year's students by
   * branch, sort the branch names and seat branch after branch from room
   * `classroomIdx` on. On failure `failedBranch` is the branch that ran out
   * of classrooms.
   */
  method SeatYear(year: string, yearStudents: seq<Student>, classrooms: seq<Classroom>, classroomIdx: nat)
    returns (ok: bool, failedBranch: string, entries: seq<AllocationEntry>, seated: nat, nextIdx: nat,
             ghost ps: seq<Placement>)
    requires UsableRooms(classrooms)
    ensures var plan := PlanRooms(YearBranchQueues(year, yearStudents), classrooms, classroomIdx);
      (ok <==> plan.Planned?)
      && (!ok ==> plan == OutOfRooms(year, failedBranch))
      && (ok ==> plan == Planned(ps) && NonEmptyPlacements(ps) && entries == Entries(ps)
                 && seated == Seated(ps) && nextIdx == classroomIdx + |ps|)
  {
    var branchKeys, studentsByBranch := GroupBy(yearStudents, BranchOf);
    var sortedBranches := SortStrings(branchKeys);
    forall b | b in sortedBranches
      ensures b in studentsByBranch && studentsByBranch[b] == Select(yearStudents, BranchOf, b)
    {
      assert b in multiset(sortedBranches);
    }
    ok, failedBranch, entries, seated, nextIdx, ps :=
      SeatBranches(year, yearStudents, sortedBranches, studentsByBranch, classrooms, classroomIdx);
  }

  /**
   * The branch loop inside one year: seat the branches in the order given,
   * each from the room where the previous one stopped.
   */
  method SeatBranches(year: string, yearStudents: seq<Student>, branches: seq<string>,
                      studentsByBranch: map<string, seq<Student>>, classrooms: seq<Classroom>, classroomIdx: nat)
    returns (ok: bool, failedBranch: string, entries: seq<AllocationEntry>, seated: nat, nextIdx: nat,
             ghost ps: seq<Placement>)
    requires UsableRooms(classrooms)
    requires forall b :: b in branches ==>
               b in studentsByBranch && studentsByBranch[b] == Select(yearStudents, BranchOf, b)
    ensures var plan := PlanRooms(BranchQueues(year, yearStudents, branches), classrooms, classroomIdx);
      (ok <==> plan.Planned?)
      && (!ok ==> plan == OutOfRooms(year, failedBranch))
      && (ok ==> plan == Planned(ps) && NonEmptyPlacements(ps) && entries == Entries(ps)
                 && seated == Seated(ps) && nextIdx == classroomIdx + |ps|)
  {
    ghost var plan := PlanRooms(BranchQueues(year, yearStudents, branches), classrooms, classroomIdx);
    ghost var rest := BranchQueues(year, yearStudents, branches);
    entries, seated, nextIdx, ps := [], 0, classroomIdx, [];
    PrependNothing(plan);

    for b := 0 to |branches|
      invariant rest == BranchQueues(year, yearStudents, branches[b..])
      invariant nextIdx == classroomIdx + |ps|
      invariant Seating(classrooms, plan, ps, entries, seated, rest, nextIdx)
    {
      var branch := branches[b];
      var branchStudents := studentsByBranch[branch];
      BranchQueuesAt(year, yearStudents, branches, b);
      ghost var tail := BranchQueues(year, yearStudents, branches[b + 1..]);
      ghost var q := [BranchQueue(year, branch, branchStudents)];
      assert rest == q + tail;

      var branchOk, branchEntries, branchSeated, branchNext, branchPs :=
        SeatBranch(year, branch, branchStudents, classrooms, nextIdx);
      if !branchOk {
        PlanRoomsAppend(q, tail, classrooms, nextIdx);
        return false, branch, [], 0, nextIdx, [];
      }
      SeatingStep(classrooms, plan, ps, entries, seated, q, tail, nextIdx, branchPs, branchEntries, branchSeated, branchNext);
      entries := entries + branchEntries;
      seated := seated + branchSeated;
      nextIdx := branchNext;
      ps := ps + branchPs;
      rest := tail;
    }
    assert branches[|branches|..] == [];
    assert ps + [] == ps;
    ok, failedBranch := true, "";
  }

  /**
   * The year loop of `allocate_students_updated`: seat the years in the
   * order given, each from the room where the previous one stopped. On
   * failure `failedYear` and `failedBranch` name the queue that ran out of
   * classrooms.
   */
  method SeatYears(filtered: seq<Student>, years: seq<string>, studentsByYear: map<string, seq<Student>>,
                   classrooms: seq<Classroom>)
    returns (ok: bool, failedYear: string, failedBranch: string,
             allocation: seq<AllocationEntry>, totalAllocated: nat, ghost placed: seq<Placement>)
    requires UsableRooms(classrooms)
    requires forall y :: y in years ==> y in studentsByYear && studentsByYear[y] == Select(filtered, YearOf, y)
    ensures var plan := PlanRooms(YearQueues(filtered, years), classrooms, 0);
      (ok <==> plan.Planned?)
      && (!ok ==> plan == OutOfRooms(failedYear, failedBranch))
      && (ok ==> plan == Planned(placed) && NonEmptyPlacements(placed)
                 && allocation == Entries(placed) && totalAllocated == Seated(placed))
  {
    allocation, totalAllocated, placed := [], 0, [];
    var classroomIdx := 0;

    ghost var plan := PlanRooms(YearQueues(filtered, years), classrooms, 0);
    ghost var rest := YearQueues(filtered, years);
    PrependNothing(plan);

    for y := 0 to |years|
      invariant rest == YearQueues(filtered, years[y..])
      invariant classroomIdx == |placed|
      invariant Seating(classrooms, plan, placed, allocation, totalAllocated, rest, classroomIdx)
    {
      var year := years[y];
      var yearStudents := studentsByYear[year];
      YearQueuesAt(filtered, years, y);
      ghost var tail := YearQueues(filtered, years[y + 1..]);
      ghost var qs := YearBranchQueues(year, yearStudents);
      assert rest == qs + tail;

      var yearOk, branch, entries, seated, nextIdx, ps := SeatYear(year, yearStudents, classrooms, classroomIdx);
      if !yearOk {
        PlanRoomsAppend(qs, tail, classrooms, classroomIdx);
        return false, year, branch, [], 0, [];
      }
      SeatingStep(classrooms, plan, placed, allocation, totalAllocated, qs, tail, classroomIdx, ps, entries, seated, nextIdx);
      allocation := allocation + entries;
      totalAllocated := totalAllocated + seated;
      classroomIdx := nextIdx;
      placed := placed + ps;
      rest := tail;
    }
    assert years[|years|..] == [];
    assert placed + [] == placed;
    ok, failedYear, failedBranch := true, "", "";
  }

  /** `allocate_students_updated(students, classrooms, selected_years)`. */
  method AllocateStudents(students: seq<Student>, classrooms: seq<Classroom>, selectedYears: seq<string>)
    returns (result: AllocationResult)
    requires UsableRooms(classrooms)
    ensures result == Allocation(students, classrooms, selectedYears)
  {
    var filtered := SelectedStudents(students, selectedYears);
    var totalStudents := |filtered|;

    var yearKeys, studentsByYear := GroupBy(filtered, YearOf);
    var sortedYears := SortStrings(yearKeys);
    forall y | y in sortedYears
      ensures y in studentsByYear && studentsByYear[y] == Select(filtered, YearOf, y)
    {
      assert y in multiset(sortedYears);
    }

    var ok, failedYear, failedBranch, allocation, totalAllocated, placed :=
      SeatYears(filtered, sortedYears, studentsByYear, classrooms);
    ghost var plan := AllocationPlan(students, classrooms, selectedYears);
    if !ok {
      result := NotAllocated(OutOfRoomsMessage(failedYear, failedBranch));
      assert result == Allocation(students, classrooms, selectedYears) by {
        PrependNothing(plan);
        AllocationFails(students, classrooms, selectedYears, [], failedYear, failedBranch, plan);
      }
    } else {
      result := Allocated(allocation, totalStudents, totalAllocated, selectedYears, |allocation|);
      assert result == Allocation(students, classrooms, selectedYears) by {
        AllocationSucceeds(students, classrooms, selectedYears, placed, plan);
      }
    }
  }
}
