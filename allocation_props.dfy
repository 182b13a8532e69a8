/**
 * What `allocate_students_updated` guarantees, proved about `Allocation`
 * (and therefore, through `AllocateStudents`'s postcondition, about the
 * loop of the source):
 *   - every selected student is seated exactly once, and
 *     `total_allocated == total_students` on success;
 *   - the students of every room occur in the uploaded list in the same
 *     order;
 *   - room j of the result is `classrooms[j]` and holds between 1 and
 *     min(capacity, 40) students;
 *   - a room never mixes years or branches;
 *   - rooms follow ascending year, then ascending branch;
 *   - the left-handed count of a room is exactly its left-handed students;
 *   - one classroom per selected student is always enough, and a failure
 *     names a year and branch that really have students waiting.
 */
module AllocationProperties {
  import opened Wrappers
  import opened Text
  import opened Grouping
  import opened Allocator

  // ------------------------------------------------------------ conservation

  /** The students of the placements, room after room. */
  function AllSeated(ps: seq<Placement>): seq<Student>
  {
    if ps == [] then [] else ps[0].students + AllSeated(ps[1..])
  }

  /** The students of the queues, queue after queue. */
  function AllQueued(qs: seq<BranchQueue>): seq<Student>
  {
    if qs == [] then [] else qs[0].students + AllQueued(qs[1..])
  }

  lemma {:induction false} AllQueuedAppend(qs: seq<BranchQueue>, rs: seq<BranchQueue>)
    ensures AllQueued(qs + rs) == AllQueued(qs) + AllQueued(rs)
    decreases |qs|
  {
    if qs == [] {
      assert qs + rs == rs;
    } else {
      assert (qs + rs)[1..] == qs[1..] + rs;
      AllQueuedAppend(qs[1..], rs);
    }
  }

  /** Planning moves the queued students into rooms without dropping, adding or reordering any. */
  lemma {:induction false} PlanRoomsConserves(queues: seq<BranchQueue>, classrooms: seq<Classroom>, idx: nat)
    requires UsableRooms(classrooms)
    ensures var r := PlanRooms(queues, classrooms, idx);
      r.Planned? ==> AllSeated(r.placements) == AllQueued(queues)
    decreases QueueSize(queues), |queues|
  {
    if queues == [] {
    } else if queues[0].students == [] {
      PlanRoomsConserves(queues[1..], classrooms, idx);
    } else if idx < |classrooms| {
      var q, room := queues[0], classrooms[idx];
      var n := if RoomCapacity(room) < |q.students| then RoomCapacity(room) else |q.students|;
      var q' := BranchQueue(q.year, q.branch, q.students[n..]);
      var rest := [q'] + queues[1..];
      var p := Placement(room, q.year, q.branch, q.students[..n]);
      assert rest[1..] == queues[1..];
      PlanRoomsConserves(rest, classrooms, idx + 1);
      var inner := PlanRooms(rest, classrooms, idx + 1);
      assert PlanRooms(queues, classrooms, idx) == Prepend([p], inner);
      if inner.Planned? {
        ConservesStep(p, inner.placements, q.students, n, rest, queues);
      }
    }
  }

  /** The room filled first takes the first `n` students of the first queue, the rest plan seats the others. */
  lemma {:induction false} ConservesStep(p: Placement, placements: seq<Placement>, qs: seq<Student>, n: nat,
                                        rest: seq<BranchQueue>, queues: seq<BranchQueue>)
    requires queues != [] && queues[0].students == qs && n <= |qs|
    requires p.students == qs[..n]
    requires rest != [] && rest[0].students == qs[n..] && rest[1..] == queues[1..]
    requires AllSeated(placements) == AllQueued(rest)
    ensures AllSeated([p] + placements) == AllQueued(queues)
  {
    calc {
      AllSeated([p] + placements);
      { assert ([p] + placements)[1..] == placements; }
      qs[..n] + AllSeated(placements);
      qs[..n] + (qs[n..] + AllQueued(queues[1..]));
      (qs[..n] + qs[n..]) + AllQueued(queues[1..]);
      { assert qs[..n] + qs[n..] == qs; }
      AllQueued(queues);
    }
  }

  lemma {:induction false} SeatedIsCount(ps: seq<Placement>)
    ensures Seated(ps) == |AllSeated(ps)|
    decreases |ps|
  {
    if ps != [] {
      assert ps == [ps[0]] + ps[1..];
      SeatedAppend([ps[0]], ps[1..]);
      assert [ps[0]][..0] == [];
      SeatedIsCount(ps[1..]);
    }
  }

  lemma {:induction false} BranchQueuesAreGroups(year: string, ys: seq<Student>, branches: seq<string>)
    ensures AllQueued(BranchQueues(year, ys, branches)) == ConcatGroups(ys, BranchOf, branches)
    decreases |branches|
  {
    if branches != [] {
      BranchQueuesAreGroups(year, ys, branches[1..]);
    }
  }

  /** The branch queues of one year hold exactly the students of that year. */
  lemma {:induction false} YearBranchQueuesPermutation(year: string, ys: seq<Student>)
    ensures multiset(AllQueued(YearBranchQueues(year, ys))) == multiset(ys)
  {
    var ks := FirstSeen(ys, BranchOf);
    FirstSeenDistinct(ys, BranchOf);
    FirstSeenCovers(ys, BranchOf);
    SortStringsStrict(ks);
    BranchQueuesAreGroups(year, ys, SortStrings(ks));
    ConcatGroupsPermutation(ys, BranchOf, SortStrings(ks));
  }

  lemma {:induction false} YearQueuesPermutation(filtered: seq<Student>, years: seq<string>)
    ensures multiset(AllQueued(YearQueues(filtered, years))) == multiset(ConcatGroups(filtered, YearOf, years))
    decreases |years|
  {
    if years != [] {
      var ys := Select(filtered, YearOf, years[0]);
      AllQueuedAppend(YearBranchQueues(years[0], ys), YearQueues(filtered, years[1..]));
      YearBranchQueuesPermutation(years[0], ys);
      YearQueuesPermutation(filtered, years[1..]);
    }
  }

  /** The queues hold exactly the selected students. */
  lemma {:induction false} QueuesPermutation(filtered: seq<Student>)
    ensures multiset(AllQueued(Queues(filtered))) == multiset(filtered)
  {
    var ks := FirstSeen(filtered, YearOf);
    FirstSeenDistinct(filtered, YearOf);
    FirstSeenCovers(filtered, YearOf);
    SortStringsStrict(ks);
    YearQueuesPermutation(filtered, SortStrings(ks));
    ConcatGroupsPermutation(filtered, YearOf, SortStrings(ks));
  }

  /**
   * On success every selected student is seated exactly once (the rooms'
   * students are a permutation of the selected ones), so `total_allocated`
   * equals `total_students`.
   */
  lemma {:induction false} AllocationSeatsEveryone(students: seq<Student>, classrooms: seq<Classroom>, years: seq<string>)
    requires UsableRooms(classrooms)
    ensures var plan := AllocationPlan(students, classrooms, years);
      plan.Planned? ==> multiset(AllSeated(plan.placements)) == multiset(SelectedStudents(students, years))
    ensures var r := Allocation(students, classrooms, years);
      r.Allocated? ==> r.totalAllocated == r.totalStudents
  {
    var filtered := SelectedStudents(students, years);
    PlanRoomsConserves(Queues(filtered), classrooms, 0);
    QueuesPermutation(filtered);
    var plan := AllocationPlan(students, classrooms, years);
    if plan.Planned? {
      SeatedIsCount(plan.placements);
      assert |AllSeated(plan.placements)| == |multiset(AllSeated(plan.placements))|;
    }
  }

  // ------------------------------------------------------------ input order

  /** `s` is a contiguous run of the students of one of `queues`. */
  ghost predicate FromQueue(s: seq<Student>, queues: seq<BranchQueue>)
  {
    exists k, x, y :: 0 <= k < |queues| && 0 <= x <= y <= |queues[k].students| && s == queues[k].students[x..y]
  }

  /** Every room of a successful plan is filled from a contiguous run of one of `queues`. */
  ghost predicate FilledFromQueues(r: Plan, queues: seq<BranchQueue>)
  {
    r.Planned? ==> forall j :: 0 <= j < |r.placements| ==> FromQueue(r.placements[j].students, queues)
  }

  /** Each room of a plan is filled from a contiguous run of one queue. */
  lemma {:induction false} PlanRoomsSlices(queues: seq<BranchQueue>, classrooms: seq<Classroom>, idx: nat)
    requires UsableRooms(classrooms)
    ensures FilledFromQueues(PlanRooms(queues, classrooms, idx), queues)
    decreases QueueSize(queues), |queues|
  {
    if queues == [] {
    } else if queues[0].students == [] {
      PlanRoomsSlices(queues[1..], classrooms, idx);
      var r := PlanRooms(queues[1..], classrooms, idx);
      assert PlanRooms(queues, classrooms, idx) == r;
      SlicesSkip(r, queues);
    } else if idx < |classrooms| {
      var q, room := queues[0], classrooms[idx];
      var n := if RoomCapacity(room) < |q.students| then RoomCapacity(room) else |q.students|;
      var rest := [BranchQueue(q.year, q.branch, q.students[n..])] + queues[1..];
      var p := Placement(room, q.year, q.branch, q.students[..n]);
      assert rest[1..] == queues[1..];
      PlanRoomsSlices(rest, classrooms, idx + 1);
      var inner := PlanRooms(rest, classrooms, idx + 1);
      assert PlanRooms(queues, classrooms, idx) == Prepend([p], inner);
      SlicesRoom(p, inner, n, rest, queues);
    }
  }

  /** An empty first queue adds no room. */
  lemma {:induction false} SlicesSkip(r: Plan, queues: seq<BranchQueue>)
    requires queues != [] && FilledFromQueues(r, queues[1..])
    ensures FilledFromQueues(r, queues)
  {
    if r.Planned? {
      forall j | 0 <= j < |r.placements| ensures FromQueue(r.placements[j].students, queues) {
        FromQueueTail(r.placements[j].students, queues);
      }
    }
  }

  /** The first room takes the first `n` students of the first queue. */
  lemma {:induction false} SlicesRoom(p: Placement, inner: Plan, n: nat, rest: seq<BranchQueue>, queues: seq<BranchQueue>)
    requires queues != [] && n <= |queues[0].students| && p.students == queues[0].students[..n]
    requires rest != [] && rest[0].students == queues[0].students[n..] && rest[1..] == queues[1..]
    requires FilledFromQueues(inner, rest)
    ensures FilledFromQueues(Prepend([p], inner), queues)
  {
    if inner.Planned? {
      var ps := [p] + inner.placements;
      forall j | 0 <= j < |ps| ensures FromQueue(ps[j].students, queues) {
        if j == 0 {
          assert ps[0].students == queues[0].students[0..n];
        } else {
          assert ps[j] == inner.placements[j - 1];
          FromQueueRest(ps[j].students, n, rest, queues);
        }
      }
    }
  }

  lemma {:induction false} FromQueueTail(s: seq<Student>, queues: seq<BranchQueue>)
    requires queues != [] && FromQueue(s, queues[1..])
    ensures FromQueue(s, queues)
  {
    var k, x, y :| 0 <= k < |queues[1..]| && 0 <= x <= y <= |queues[1..][k].students|
                   && s == queues[1..][k].students[x..y];
    assert queues[1..][k] == queues[k + 1];
  }

  /** A run of the queues left after the first room is a run of the original queues. */
  lemma {:induction false} FromQueueRest(s: seq<Student>, n: nat, rest: seq<BranchQueue>, queues: seq<BranchQueue>)
    requires queues != [] && n <= |queues[0].students|
    requires rest != [] && rest[0].students == queues[0].students[n..] && rest[1..] == queues[1..]
    requires FromQueue(s, rest)
    ensures FromQueue(s, queues)
  {
    var k, x, y :| 0 <= k < |rest| && 0 <= x <= y <= |rest[k].students| && s == rest[k].students[x..y];
    if k == 0 {
      var qs := queues[0].students;
      SliceOfDrop(qs, n, x, y);
      assert 0 <= n + x <= n + y <= |qs| && s == qs[n + x..n + y];
    } else {
      assert |rest| == |queues| by {
        assert |rest[1..]| == |queues[1..]|;
      }
      assert rest[k] == rest[1..][k - 1] == queues[1..][k - 1] == queues[k];
      assert 0 <= k < |queues| && 0 <= x <= y <= |queues[k].students| && s == queues[k].students[x..y];
    }
  }

  /** Every branch queue of a year lists its students in the year's order. */
  lemma {:induction false} BranchQueuesInOrder(year: string, ys: seq<Student>, branches: seq<string>)
    ensures forall k :: 0 <= k < |BranchQueues(year, ys, branches)| ==>
              Subsequence(BranchQueues(year, ys, branches)[k].students, ys)
    decreases |branches|
  {
    if branches != [] {
      var qs := BranchQueues(year, ys, branches);
      BranchQueuesInOrder(year, ys, branches[1..]);
      SelectSubsequence(ys, BranchOf, branches[0]);
      forall k | 0 <= k < |qs| ensures Subsequence(qs[k].students, ys) {
        if k > 0 {
          assert qs[k] == BranchQueues(year, ys, branches[1..])[k - 1];
        }
      }
    }
  }

  /** Every queue lists its students in the order of the filtered list. */
  lemma {:induction false} YearQueuesInOrder(filtered: seq<Student>, years: seq<string>)
    ensures forall k :: 0 <= k < |YearQueues(filtered, years)| ==>
              Subsequence(YearQueues(filtered, years)[k].students, filtered)
    decreases |years|
  {
    if years != [] {
      var ys := Select(filtered, YearOf, years[0]);
      var head, tail := YearBranchQueues(years[0], ys), YearQueues(filtered, years[1..]);
      var all: seq<BranchQueue> := head + tail;
      assert YearQueues(filtered, years) == all;
      YearQueuesInOrder(filtered, years[1..]);
      BranchQueuesInOrder(years[0], ys, SortStrings(FirstSeen(ys, BranchOf)));
      SelectSubsequence(filtered, YearOf, years[0]);
      forall k | 0 <= k < |all| ensures Subsequence(all[k].students, filtered) {
        if k < |head| {
          SubsequenceTransitive(head[k].students, ys, filtered);
        } else {
          assert all[k] == tail[k - |head|];
        }
      }
    }
  }

  /**
   * The students of every room appear in the uploaded students list in the
   * same order, so `first_roll` and `last_roll` are the first and last of
   * them in input order.
   */
  lemma {:induction false} RoomsInInputOrder(students: seq<Student>, classrooms: seq<Classroom>, years: seq<string>)
    requires UsableRooms(classrooms)
    ensures var plan := AllocationPlan(students, classrooms, years);
      plan.Planned? ==> forall j :: 0 <= j < |plan.placements| ==> Subsequence(plan.placements[j].students, students)
  {
    var filtered := SelectedStudents(students, years);
    var queues := Queues(filtered);
    var pos := SelectedStudentsInOrder(students, years);
    assert Subsequence(filtered, students);
    YearQueuesInOrder(filtered, SortStrings(FirstSeen(filtered, YearOf)));
    PlanRoomsSlices(queues, classrooms, 0);
    var plan := AllocationPlan(students, classrooms, years);
    if plan.Planned? {
      forall j | 0 <= j < |plan.placements| ensures Subsequence(plan.placements[j].students, students) {
        var s := plan.placements[j].students;
        var k, x, y :| 0 <= k < |queues| && 0 <= x <= y <= |queues[k].students| && s == queues[k].students[x..y];
        SubsequenceSlice(queues[k].students, filtered, x, y);
        SubsequenceTransitive(s, filtered, students);
      }
    }
  }

  // ------------------------------------------------------------------ rooms

  /**
   * On success room j of the result is `classrooms[j]`, seats between 1 and
   * min(capacity, 40) students, and `rooms_used` is the number of entries.
   */
  lemma {:induction false} AllocationRooms(students: seq<Student>, classrooms: seq<Classroom>, years: seq<string>)
    requires UsableRooms(classrooms)
    ensures var r := Allocation(students, classrooms, years);
      r.Allocated? ==>
        r.roomsUsed == |r.allocation| <= |classrooms| && RoomsReported(r.allocation, classrooms)
  {
    var plan := AllocationPlan(students, classrooms, years);
    PlanReported(Queues(SelectedStudents(students, years)), classrooms);
    if plan.Planned? {
      AllocationSucceeds(students, classrooms, years, plan.placements, plan);
    }
  }

  /** A plan made from the first room on reports room j as entry j. */
  lemma {:induction false} PlanReported(queues: seq<BranchQueue>, classrooms: seq<Classroom>)
    requires UsableRooms(classrooms)
    ensures var plan := PlanRooms(queues, classrooms, 0);
      plan.Planned? ==>
        NonEmptyPlacements(plan.placements) && |Entries(plan.placements)| == |plan.placements|
        && RoomsReported(Entries(plan.placements), classrooms)
  {
    var plan := PlanRooms(queues, classrooms, 0);
    if plan.Planned? {
      var ps := plan.placements;
      assert forall j :: 0 <= j < |ps| ==> ps[j].room == classrooms[0 + j];
      EntriesRooms(ps, classrooms);
    }
  }

  /** Entry j names room j and seats between 1 and min(capacity, 40) students. */
  ghost predicate RoomsReported(es: seq<AllocationEntry>, classrooms: seq<Classroom>)
  {
    |es| <= |classrooms|
    && forall j :: 0 <= j < |es| ==>
         es[j].roomId == classrooms[j].roomId
         && 1 <= es[j].totalStudents <= RoomCapacity(classrooms[j]) <= MaxPerRoom
  }

  /** Entry j reports room j of the placements and how many it seats. */
  lemma {:induction false} EntriesRooms(ps: seq<Placement>, classrooms: seq<Classroom>)
    requires NonEmptyPlacements(ps) && |ps| <= |classrooms|
    requires forall j :: 0 <= j < |ps| ==>
      ps[j].room == classrooms[j] && |ps[j].students| <= RoomCapacity(classrooms[j])
    ensures |Entries(ps)| == |ps|
    ensures RoomsReported(Entries(ps), classrooms)
  {
    forall j | 0 <= j < |ps|
      ensures Entries(ps)[j].roomId == classrooms[j].roomId
      ensures 1 <= Entries(ps)[j].totalStudents <= RoomCapacity(classrooms[j]) <= MaxPerRoom
    {
      assert Entries(ps)[j] == EntryOf(ps[j]);
    }
  }

  // ------------------------------------------------------------ no mixing

  /** Every student of the queue belongs to the queue's year and branch. */
  predicate Homogeneous(q: BranchQueue)
  {
    forall i :: 0 <= i < |q.students| ==> q.students[i].year == q.year && q.students[i].branch == q.branch
  }

  /** Every student of the room belongs to the room's year and branch. */
  predicate Unmixed(p: Placement)
  {
    forall i :: 0 <= i < |p.students| ==> p.students[i].year == p.year && p.students[i].branch == p.branch
  }

  lemma {:induction false} PlanRoomsUnmixed(queues: seq<BranchQueue>, classrooms: seq<Classroom>, idx: nat)
    requires UsableRooms(classrooms)
    requires AllHomogeneous(queues)
    ensures var r := PlanRooms(queues, classrooms, idx);
      r.Planned? ==> forall j :: 0 <= j < |r.placements| ==> Unmixed(r.placements[j])
    decreases QueueSize(queues), |queues|
  {
    if queues == [] {
    } else if queues[0].students == [] {
      PlanRoomsUnmixed(queues[1..], classrooms, idx);
    } else if idx < |classrooms| {
      var q, room := queues[0], classrooms[idx];
      var n := if RoomCapacity(room) < |q.students| then RoomCapacity(room) else |q.students|;
      var q' := BranchQueue(q.year, q.branch, q.students[n..]);
      var rest := [q'] + queues[1..];
      var p := Placement(room, q.year, q.branch, q.students[..n]);
      assert Homogeneous(queues[0]);
      assert AllHomogeneous(rest) && Unmixed(p) by {
        assert rest[1..] == queues[1..];
        assert Homogeneous(q');
        AllHomogeneousAppend([q'], queues[1..]);
      }
      PlanRoomsUnmixed(rest, classrooms, idx + 1);
      var inner := PlanRooms(rest, classrooms, idx + 1);
      assert PlanRooms(queues, classrooms, idx) == Prepend([p], inner);
      if inner.Planned? {
        UnmixedStep(p, inner.placements);
      }
    }
  }

  lemma {:induction false} UnmixedStep(p: Placement, ps: seq<Placement>)
    requires Unmixed(p)
    requires forall j :: 0 <= j < |ps| ==> Unmixed(ps[j])
    ensures forall j :: 0 <= j < |[p] + ps| ==> Unmixed(([p] + ps)[j])
  {
    forall j | 0 <= j < |[p] + ps| ensures Unmixed(([p] + ps)[j]) {
      if j > 0 { assert ([p] + ps)[j] == ps[j - 1]; }
    }
  }

  predicate AllHomogeneous(qs: seq<BranchQueue>)
  {
    forall i :: 0 <= i < |qs| ==> Homogeneous(qs[i])
  }

  lemma {:induction false} AllHomogeneousAppend(qs: seq<BranchQueue>, rs: seq<BranchQueue>)
    requires AllHomogeneous(qs) && AllHomogeneous(rs)
    ensures AllHomogeneous(qs + rs)
  {
    forall i | 0 <= i < |qs + rs| ensures Homogeneous((qs + rs)[i]) {
      if i < |qs| { assert (qs + rs)[i] == qs[i]; } else { assert (qs + rs)[i] == rs[i - |qs|]; }
    }
  }

  lemma {:induction false} BranchQueuesHomogeneous(year: string, ys: seq<Student>, branches: seq<string>)
    requires forall i :: 0 <= i < |ys| ==> ys[i].year == year
    ensures AllHomogeneous(BranchQueues(year, ys, branches))
    decreases |branches|
  {
    if branches != [] {
      BranchQueuesHomogeneous(year, ys, branches[1..]);
      var g := Select(ys, BranchOf, branches[0]);
      forall i | 0 <= i < |g| ensures g[i].year == year && g[i].branch == branches[0] {
        assert BranchOf(g[i]) == branches[0];
        assert g[i] in ys;
      }
      assert Homogeneous(BranchQueue(year, branches[0], g));
      AllHomogeneousAppend([BranchQueue(year, branches[0], g)], BranchQueues(year, ys, branches[1..]));
    }
  }

  lemma {:induction false} YearQueuesHomogeneous(filtered: seq<Student>, years: seq<string>)
    ensures AllHomogeneous(YearQueues(filtered, years))
    decreases |years|
  {
    if years != [] {
      var ys := Select(filtered, YearOf, years[0]);
      forall i | 0 <= i < |ys| ensures ys[i].year == years[0] {
        assert YearOf(ys[i]) == years[0];
      }
      BranchQueuesHomogeneous(years[0], ys, SortStrings(FirstSeen(ys, BranchOf)));
      YearQueuesHomogeneous(filtered, years[1..]);
      AllHomogeneousAppend(YearBranchQueues(years[0], ys), YearQueues(filtered, years[1..]));
    }
  }

  /** A room never mixes academic years or branches: all its students share the entry's year and branch. */
  lemma {:induction false} AllocationNoMixing(students: seq<Student>, classrooms: seq<Classroom>, years: seq<string>)
    requires UsableRooms(classrooms)
    ensures var plan := AllocationPlan(students, classrooms, years);
      plan.Planned? ==> forall j :: 0 <= j < |plan.placements| ==> Unmixed(plan.placements[j])
  {
    var filtered := SelectedStudents(students, years);
    YearQueuesHomogeneous(filtered, SortStrings(FirstSeen(filtered, YearOf)));
    PlanRoomsUnmixed(Queues(filtered), classrooms, 0);
  }

  // ---------------------------------------------------------- left-handed

  /** The left-handed count is zero exactly when nobody in the room is left-handed. */
  lemma {:induction false} CountLeftHandedZero(ss: seq<Student>)
    ensures CountLeftHanded(ss) == 0 <==> forall i :: 0 <= i < |ss| ==> !IsLeftHanded(ss[i])
    decreases |ss|
  {
    if ss != [] {
      CountLeftHandedZero(ss[1..]);
      if CountLeftHanded(ss[1..]) != 0 {
        var i :| 0 <= i < |ss[1..]| && IsLeftHanded(ss[1..][i]);
        assert IsLeftHanded(ss[i + 1]);
      }
      forall i | 0 < i < |ss| ensures ss[i] == ss[1..][i - 1] { }
    }
  }

  /** The count is additive, so each room's count adds up to the left-handed students seated. */
  lemma {:induction false} CountLeftHandedAppend(ss: seq<Student>, ts: seq<Student>)
    ensures CountLeftHanded(ss + ts) == CountLeftHanded(ss) + CountLeftHanded(ts)
    decreases |ss|
  {
    if ss == [] {
      assert ss + ts == ts;
    } else {
      assert (ss + ts)[1..] == ss[1..] + ts;
      CountLeftHandedAppend(ss[1..], ts);
    }
  }

  /**
   * The entry of a room: its size, the rolls of its first and last student,
   * and `left_handed_chairs`, which is None exactly when no student of the
   * room is left-handed and otherwise the number of left-handed students.
   */
  lemma {:induction false} EntryOfRoom(p: Placement)
    requires p.students != []
    ensures var e := EntryOf(p);
      e.roomId == p.room.roomId && e.year == p.year && e.branch == p.branch
      && e.totalStudents == |p.students|
      && e.firstRoll == p.students[0].rollNumber
      && e.lastRoll == p.students[|p.students| - 1].rollNumber
      && (e.leftHandedChairs.None? <==> forall i :: 0 <= i < |p.students| ==> !IsLeftHanded(p.students[i]))
      && (e.leftHandedChairs.Some? ==>
            e.leftHandedChairs.value == CountLeftHanded(p.students) && 1 <= e.leftHandedChairs.value <= |p.students|)
  {
    CountLeftHandedZero(p.students);
  }

  // ------------------------------------------------------- enough classrooms

  lemma {:induction false} QueueSizeIsCount(qs: seq<BranchQueue>)
    ensures QueueSize(qs) == |AllQueued(qs)|
    decreases |qs|
  {
    if qs != [] { QueueSizeIsCount(qs[1..]); }
  }

  /** Each room takes at least one student, so one room per waiting student always suffices. */
  lemma {:induction false} PlanRoomsEnoughRooms(queues: seq<BranchQueue>, classrooms: seq<Classroom>, idx: nat)
    requires UsableRooms(classrooms)
    requires idx + QueueSize(queues) <= |classrooms|
    ensures PlanRooms(queues, classrooms, idx).Planned?
    decreases QueueSize(queues), |queues|
  {
    if queues == [] {
    } else if queues[0].students == [] {
      PlanRoomsEnoughRooms(queues[1..], classrooms, idx);
    } else {
      var q, room := queues[0], classrooms[idx];
      var n := if RoomCapacity(room) < |q.students| then RoomCapacity(room) else |q.students|;
      var q' := BranchQueue(q.year, q.branch, q.students[n..]);
      var rest := [q'] + queues[1..];
      assert rest[1..] == queues[1..];
      assert QueueSize(rest) == |q.students| - n + QueueSize(queues[1..]);
      PlanRoomsEnoughRooms(rest, classrooms, idx + 1);
    }
  }

  /** With at least as many classrooms as selected students the allocation never fails. */
  lemma {:induction false} AllocationEnoughRooms(students: seq<Student>, classrooms: seq<Classroom>, years: seq<string>)
    requires UsableRooms(classrooms)
    requires |SelectedStudents(students, years)| <= |classrooms|
    ensures Allocation(students, classrooms, years).Allocated?
  {
    var filtered := SelectedStudents(students, years);
    QueuesPermutation(filtered);
    QueueSizeIsCount(Queues(filtered));
    assert |AllQueued(Queues(filtered))| == |multiset(AllQueued(Queues(filtered)))| == |multiset(filtered)|;
    PlanRoomsEnoughRooms(Queues(filtered), classrooms, 0);
  }

  // ------------------------------------------------------------ the failure

  /** Some queue of `qs` for this year and branch still has students. */
  predicate Waiting(qs: seq<BranchQueue>, year: string, branch: string)
  {
    exists i :: 0 <= i < |qs| && qs[i].year == year && qs[i].branch == branch && qs[i].students != []
  }

  /** Planning fails only on a year and branch that have students left when the rooms run out. */
  lemma {:induction false} PlanRoomsFailure(queues: seq<BranchQueue>, classrooms: seq<Classroom>, idx: nat)
    requires UsableRooms(classrooms)
    ensures var r := PlanRooms(queues, classrooms, idx);
      r.OutOfRooms? ==> Waiting(queues, r.year, r.branch)
    decreases QueueSize(queues), |queues|
  {
    var r := PlanRooms(queues, classrooms, idx);
    if queues == [] {
    } else if queues[0].students == [] {
      PlanRoomsFailure(queues[1..], classrooms, idx);
      if r.OutOfRooms? {
        var i :| 0 <= i < |queues[1..]| && queues[1..][i].year == r.year && queues[1..][i].branch == r.branch
                 && queues[1..][i].students != [];
        assert queues[i + 1] == queues[1..][i];
      }
    } else if idx >= |classrooms| {
      assert queues[0].year == r.year && queues[0].branch == r.branch;
    } else {
      var q, room := queues[0], classrooms[idx];
      var n := if RoomCapacity(room) < |q.students| then RoomCapacity(room) else |q.students|;
      var q' := BranchQueue(q.year, q.branch, q.students[n..]);
      var rest := [q'] + queues[1..];
      assert rest[1..] == queues[1..];
      PlanRoomsFailure(rest, classrooms, idx + 1);
      if r.OutOfRooms? {
        var i :| 0 <= i < |rest| && rest[i].year == r.year && rest[i].branch == r.branch && rest[i].students != [];
        if i == 0 {
          assert queues[0].year == r.year && queues[0].branch == r.branch;
        } else {
          assert queues[i] == rest[i];
        }
      }
    }
  }

  lemma {:induction false} AllQueuedContains(qs: seq<BranchQueue>, i: nat, k: nat)
    requires i < |qs| && k < |qs[i].students|
    ensures qs[i].students[k] in AllQueued(qs)
    decreases i
  {
    if i > 0 {
      AllQueuedContains(qs[1..], i - 1, k);
      assert qs[1..][i - 1] == qs[i];
    }
  }

  /**
   * When the allocation fails, its message names a year and a branch for
   * which some selected student really was left without a room.
   */
  lemma {:induction false} AllocationFailureIsReal(students: seq<Student>, classrooms: seq<Classroom>, years: seq<string>)
    requires UsableRooms(classrooms)
    ensures var plan := AllocationPlan(students, classrooms, years);
      plan.OutOfRooms? ==>
        Allocation(students, classrooms, years) == NotAllocated(OutOfRoomsMessage(plan.year, plan.branch))
        && exists s :: s in SelectedStudents(students, years) && s.year == plan.year && s.branch == plan.branch
  {
    var filtered := SelectedStudents(students, years);
    var queues := Queues(filtered);
    var plan := AllocationPlan(students, classrooms, years);
    PlanRoomsFailure(queues, classrooms, 0);
    if plan.OutOfRooms? {
      AllocationFails(students, classrooms, years, [], plan.year, plan.branch, plan);
      var i :| 0 <= i < |queues| && queues[i].year == plan.year && queues[i].branch == plan.branch
               && queues[i].students != [];
      YearQueuesHomogeneous(filtered, SortStrings(FirstSeen(filtered, YearOf)));
      assert Homogeneous(queues[i]);
      var s := queues[i].students[0];
      AllQueuedContains(queues, i, 0);
      QueuesPermutation(filtered);
      assert s in multiset(AllQueued(queues));
      assert s in filtered;
    }
  }

  // ---------------------------------------------------------------- order

  /** Year first, then branch, both compared as Python compares strings. */
  predicate KeyLessEq(year1: string, branch1: string, year2: string, branch2: string)
  {
    LexLess(year1, year2) || (year1 == year2 && LexLessEq(branch1, branch2))
  }

  predicate QueuesOrdered(qs: seq<BranchQueue>)
  {
    forall i, j :: 0 <= i < j < |qs| ==> KeyLessEq(qs[i].year, qs[i].branch, qs[j].year, qs[j].branch)
  }

  predicate PlacementsOrdered(ps: seq<Placement>)
  {
    forall i, j :: 0 <= i < j < |ps| ==> KeyLessEq(ps[i].year, ps[i].branch, ps[j].year, ps[j].branch)
  }

  /** Some queue of `qs` has this year and branch. */
  predicate HasKey(qs: seq<BranchQueue>, year: string, branch: string)
  {
    exists i :: 0 <= i < |qs| && qs[i].year == year && qs[i].branch == branch
  }

  /** Replacing the head queue by one with the same year and branch keeps the order. */
  lemma {:induction false} ReplaceHeadOrdered(q: BranchQueue, queues: seq<BranchQueue>)
    requires queues != [] && QueuesOrdered(queues)
    requires q.year == queues[0].year && q.branch == queues[0].branch
    ensures QueuesOrdered([q] + queues[1..])
  {
    var rest := [q] + queues[1..];
    forall i, j | 0 <= i < j < |rest|
      ensures KeyLessEq(rest[i].year, rest[i].branch, rest[j].year, rest[j].branch)
    {
      assert rest[j] == queues[j];
      if i > 0 { assert rest[i] == queues[i]; }
    }
  }

  lemma {:induction false} ConsOrdered(p: Placement, ps: seq<Placement>)
    requires PlacementsOrdered(ps)
    requires forall j :: 0 <= j < |ps| ==> KeyLessEq(p.year, p.branch, ps[j].year, ps[j].branch)
    ensures PlacementsOrdered([p] + ps)
  {
    var r := [p] + ps;
    forall i, j | 0 <= i < j < |r|
      ensures KeyLessEq(r[i].year, r[i].branch, r[j].year, r[j].branch)
    {
      assert r[j] == ps[j - 1];
      if i > 0 { assert r[i] == ps[i - 1]; }
    }
  }

  /** Every room of a plan carries the year and branch of one of the queues. */
  lemma {:induction false} PlanRoomsKeys(queues: seq<BranchQueue>, classrooms: seq<Classroom>, idx: nat)
    requires UsableRooms(classrooms)
    ensures var r := PlanRooms(queues, classrooms, idx);
      r.Planned? ==> forall j :: 0 <= j < |r.placements| ==> HasKey(queues, r.placements[j].year, r.placements[j].branch)
    decreases QueueSize(queues), |queues|
  {
    if queues == [] {
    } else if queues[0].students == [] {
      PlanRoomsKeys(queues[1..], classrooms, idx);
      var r := PlanRooms(queues[1..], classrooms, idx);
      assert PlanRooms(queues, classrooms, idx) == r;
      if r.Planned? {
        KeysTail(queues, r.placements);
      }
    } else if idx < |classrooms| {
      var q, room := queues[0], classrooms[idx];
      var n := if RoomCapacity(room) < |q.students| then RoomCapacity(room) else |q.students|;
      var rest := [BranchQueue(q.year, q.branch, q.students[n..])] + queues[1..];
      var p := Placement(room, q.year, q.branch, q.students[..n]);
      assert rest[1..] == queues[1..];
      PlanRoomsKeys(rest, classrooms, idx + 1);
      var inner := PlanRooms(rest, classrooms, idx + 1);
      assert PlanRooms(queues, classrooms, idx) == Prepend([p], inner);
      assert rest[0].year == q.year && rest[0].branch == q.branch;
      if inner.Planned? {
        KeysStep(queues, rest, p, inner.placements);
      }
    }
  }

  /** Keys of the later queues are keys of all the queues. */
  lemma {:induction false} KeysTail(queues: seq<BranchQueue>, ps: seq<Placement>)
    requires queues != []
    requires forall j :: 0 <= j < |ps| ==> HasKey(queues[1..], ps[j].year, ps[j].branch)
    ensures forall j :: 0 <= j < |ps| ==> HasKey(queues, ps[j].year, ps[j].branch)
  {
    forall j | 0 <= j < |ps| ensures HasKey(queues, ps[j].year, ps[j].branch) {
      var i :| 0 <= i < |queues[1..]| && queues[1..][i].year == ps[j].year && queues[1..][i].branch == ps[j].branch;
      assert queues[i + 1] == queues[1..][i];
    }
  }

  /** A room cut from the first queue, followed by rooms keyed by what is left, is keyed by the queues. */
  lemma {:induction false} KeysStep(queues: seq<BranchQueue>, rest: seq<BranchQueue>, p: Placement, ps: seq<Placement>)
    requires queues != [] && rest != [] && rest[1..] == queues[1..]
    requires rest[0].year == queues[0].year && rest[0].branch == queues[0].branch
    requires p.year == queues[0].year && p.branch == queues[0].branch
    requires forall j :: 0 <= j < |ps| ==> HasKey(rest, ps[j].year, ps[j].branch)
    ensures forall j :: 0 <= j < |[p] + ps| ==> HasKey(queues, ([p] + ps)[j].year, ([p] + ps)[j].branch)
  {
    forall j | 0 <= j < |ps| ensures HasKey(queues, ps[j].year, ps[j].branch) {
      var i :| 0 <= i < |rest| && rest[i].year == ps[j].year && rest[i].branch == ps[j].branch;
      if i == 0 {
        assert queues[0].year == ps[j].year && queues[0].branch == ps[j].branch;
      } else {
        assert queues[i] == rest[1..][i - 1];
      }
    }
    forall j | 0 <= j < |[p] + ps| ensures HasKey(queues, ([p] + ps)[j].year, ([p] + ps)[j].branch) {
      if j == 0 {
        assert queues[0].year == p.year && queues[0].branch == p.branch;
      } else {
        assert ([p] + ps)[j] == ps[j - 1];
      }
    }
  }

  /** Rooms are filled queue after queue, so ordered queues give ordered rooms. */
  lemma {:induction false} PlanRoomsOrdered(queues: seq<BranchQueue>, classrooms: seq<Classroom>, idx: nat)
    requires UsableRooms(classrooms)
    requires QueuesOrdered(queues)
    ensures var r := PlanRooms(queues, classrooms, idx);
      r.Planned? ==> PlacementsOrdered(r.placements)
    decreases QueueSize(queues), |queues|
  {
    if queues == [] {
    } else if queues[0].students == [] {
      PlanRoomsOrdered(queues[1..], classrooms, idx);
    } else if idx < |classrooms| {
      var q, room := queues[0], classrooms[idx];
      var n := if RoomCapacity(room) < |q.students| then RoomCapacity(room) else |q.students|;
      var q' := BranchQueue(q.year, q.branch, q.students[n..]);
      var rest := [q'] + queues[1..];
      assert rest[1..] == queues[1..];
      ReplaceHeadOrdered(q', queues);
      PlanRoomsOrdered(rest, classrooms, idx + 1);
      PlanRoomsKeys(rest, classrooms, idx + 1);
      var inner := PlanRooms(rest, classrooms, idx + 1);
      if inner.Planned? {
        var p := Placement(room, q.year, q.branch, q.students[..n]);
        var ps := inner.placements;
        forall j | 0 <= j < |ps| ensures KeyLessEq(p.year, p.branch, ps[j].year, ps[j].branch) {
          var i :| 0 <= i < |rest| && rest[i].year == ps[j].year && rest[i].branch == ps[j].branch;
          if i > 0 { assert rest[i] == queues[i]; }
        }
        ConsOrdered(p, ps);
      }
    }
  }

  lemma {:induction false} BranchQueuesShape(year: string, ys: seq<Student>, branches: seq<string>)
    ensures |BranchQueues(year, ys, branches)| == |branches|
    ensures forall i :: 0 <= i < |branches| ==>
      BranchQueues(year, ys, branches)[i].year == year && BranchQueues(year, ys, branches)[i].branch == branches[i]
    decreases |branches|
  {
    if branches != [] {
      BranchQueuesShape(year, ys, branches[1..]);
    }
  }

  /** Every queue's year is one of `years`. */
  predicate YearsAmong(qs: seq<BranchQueue>, years: seq<string>)
  {
    forall i :: 0 <= i < |qs| ==> qs[i].year in years
  }

  lemma {:induction false} YearQueuesYears(filtered: seq<Student>, years: seq<string>)
    ensures YearsAmong(YearQueues(filtered, years), years)
    decreases |years|
  {
    if years != [] {
      var ys := Select(filtered, YearOf, years[0]);
      var head := YearBranchQueues(years[0], ys);
      var tail := YearQueues(filtered, years[1..]);
      BranchQueuesShape(years[0], ys, SortStrings(FirstSeen(ys, BranchOf)));
      YearQueuesYears(filtered, years[1..]);
      var qs := YearQueues(filtered, years);
      assert qs == head + tail;
      forall i | 0 <= i < |qs| ensures qs[i].year in years {
        if i < |head| {
          assert qs[i] == head[i];
        } else {
          assert qs[i] == tail[i - |head|];
          assert YearsAmong(tail, years[1..]);
          assert tail[i - |head|].year in years[1..];
        }
      }
    }
  }

  lemma {:induction false} OrderedAppend(qs: seq<BranchQueue>, rs: seq<BranchQueue>)
    requires QueuesOrdered(qs) && QueuesOrdered(rs)
    requires forall i, j :: 0 <= i < |qs| && 0 <= j < |rs| ==> KeyLessEq(qs[i].year, qs[i].branch, rs[j].year, rs[j].branch)
    ensures QueuesOrdered(qs + rs)
  {
    var all := qs + rs;
    forall i, j | 0 <= i < j < |all|
      ensures KeyLessEq(all[i].year, all[i].branch, all[j].year, all[j].branch)
    {
      if j < |qs| {
        assert all[i] == qs[i] && all[j] == qs[j];
      } else if i < |qs| {
        assert all[i] == qs[i] && all[j] == rs[j - |qs|];
      } else {
        assert all[i] == rs[i - |qs|] && all[j] == rs[j - |qs|];
      }
    }
  }

  /** In strictly ascending years, every year after the first is above it. */
  lemma {:induction false} LaterYear(years: seq<string>, y: string)
    requires forall i, j :: 0 <= i < j < |years| ==> LexLess(years[i], years[j])
    requires years != [] && y in years[1..]
    ensures LexLess(years[0], y)
  {
    var k :| 0 <= k < |years[1..]| && years[1..][k] == y;
    assert years[k + 1] == y;
  }

  /** Years in strictly ascending order give queues in (year, branch) order. */
  lemma {:induction false} YearQueuesOrdered(filtered: seq<Student>, years: seq<string>)
    requires forall i, j :: 0 <= i < j < |years| ==> LexLess(years[i], years[j])
    ensures QueuesOrdered(YearQueues(filtered, years))
    decreases |years|
  {
    if years != [] {
      var ys := Select(filtered, YearOf, years[0]);
      var branches := SortStrings(FirstSeen(ys, BranchOf));
      var head := YearBranchQueues(years[0], ys);
      var tail := YearQueues(filtered, years[1..]);
      BranchQueuesShape(years[0], ys, branches);
      SortStringsSorted(FirstSeen(ys, BranchOf));
      assert QueuesOrdered(head);
      YearQueuesOrdered(filtered, years[1..]);
      YearQueuesYears(filtered, years[1..]);
      forall i, j | 0 <= i < |head| && 0 <= j < |tail|
        ensures KeyLessEq(head[i].year, head[i].branch, tail[j].year, tail[j].branch)
      {
        assert head[i].year == years[0];
        LaterYear(years, tail[j].year);
      }
      OrderedAppend(head, tail);
    }
  }

  /**
   * Rooms follow ascending year and, inside a year, ascending branch: for
   * two entries i < j of a successful result, entry i's (year, branch) is
   * not after entry j's.
   */
  lemma {:induction false} AllocationOrdered(students: seq<Student>, classrooms: seq<Classroom>, years: seq<string>)
    requires UsableRooms(classrooms)
    ensures var r := Allocation(students, classrooms, years);
      r.Allocated? ==>
        forall i, j :: 0 <= i < j < |r.allocation| ==>
          KeyLessEq(r.allocation[i].year, r.allocation[i].branch, r.allocation[j].year, r.allocation[j].branch)
  {
    var filtered := SelectedStudents(students, years);
    var ks := FirstSeen(filtered, YearOf);
    FirstSeenDistinct(filtered, YearOf);
    FirstSeenCovers(filtered, YearOf);
    SortStringsStrict(ks);
    YearQueuesOrdered(filtered, SortStrings(ks));
    PlanRoomsOrdered(Queues(filtered), classrooms, 0);
    var plan := AllocationPlan(students, classrooms, years);
    if plan.Planned? {
      var ps := plan.placements;
      AllocationSucceeds(students, classrooms, years, ps, plan);
      var entries := Entries(ps);
      forall i, j | 0 <= i < j < |entries|
        ensures KeyLessEq(entries[i].year, entries[i].branch, entries[j].year, entries[j].branch)
      {
        assert entries[i] == EntryOf(ps[i]) && entries[j] == EntryOf(ps[j]);
      }
    }
  }

  // ------------------------------------------------------------------ totals

  /** The sum of `total_students` over the entries. */
  function SumTotals(es: seq<AllocationEntry>): nat
  {
    if es == [] then 0 else SumTotals(es[..|es| - 1]) + es[|es| - 1].totalStudents
  }

  lemma {:induction false} SeatedIsSumTotals(ps: seq<Placement>)
    requires NonEmptyPlacements(ps)
    ensures Seated(ps) == SumTotals(Entries(ps))
    decreases |ps|
  {
    if ps != [] {
      var init := ps[..|ps| - 1];
      assert Entries(ps)[..|ps| - 1] == Entries(init);
      SeatedIsSumTotals(init);
    }
  }

  /**
   * On success `total_allocated` is the sum of `total_students` over the
   * entries, and `rooms_used` is the number of entries.
   */
  lemma {:induction false} AllocationTotals(students: seq<Student>, classrooms: seq<Classroom>, years: seq<string>)
    requires UsableRooms(classrooms)
    ensures var r := Allocation(students, classrooms, years);
      r.Allocated? ==> r.totalAllocated == SumTotals(r.allocation) && r.roomsUsed == |r.allocation|
  {
    var plan := AllocationPlan(students, classrooms, years);
    if plan.Planned? {
      AllocationSucceeds(students, classrooms, years, plan.placements, plan);
      SeatedIsSumTotals(plan.placements);
    }
  }
}
