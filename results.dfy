/**
 * The two views of a successful allocation in the browser: the on-screen
 * table, which groups the records by room and gives each room one cell
 * spanning its rows, and the PDF table, which walks the records in response
 * order and blanks the room column when a row repeats the room above it.
 * HTML markup and jsPDF drawing are reduced to the cells each row holds.
 */
module Results {
  import opened Wrappers
  import opened Text
  import opened Grouping
  import opened Allocator
  import opened AllocationProperties

  function RoomOf(e: AllocationEntry): string { e.roomId }

  // ------------------------------------------------------------------- cells

  /** The roll column: `{first_roll} to {last_roll}`. */
  function RollRange(e: AllocationEntry): string
  {
    e.firstRoll + " to " + e.lastRoll
  }

  /**
   * The left-handed column. Both views print the count when it is truthy and
   * nothing when it is `null` or `0`.
   */
  function LeftHandedText(v: Option<nat>): string
  {
    match v
    case None => ""
    case Some(n) => if n == 0 then "" else NatToString(n)
  }

  lemma {:induction false} LeftHandedTextMeaning(v: Option<nat>)
    ensures LeftHandedText(v) == "" <==> v == None || v == Some(0)
    ensures v.Some? && v.value > 0 ==>
              AllDigits(LeftHandedText(v)) && DigitsValue(LeftHandedText(v)) == v.value
  {
    if v.Some? && v.value > 0 { DigitsValueOfNatToString(v.value); }
  }

  /** The four cells both views print for a record, after the room column. */
  datatype RecordCells = RecordCells(branch: string, rolls: string, total: string, leftHanded: string)

  function CellsOf(e: AllocationEntry): RecordCells
  {
    RecordCells(e.branch, RollRange(e), NatToString(e.totalStudents), LeftHandedText(e.leftHandedChairs))
  }

  /** Distinct roll ranges, counts and left-hand counts print as distinct cells. */
  lemma {:induction false} CellsOfDistinguish(e: AllocationEntry, f: AllocationEntry)
    requires CellsOf(e) == CellsOf(f)
    ensures e.branch == f.branch && RollRange(e) == RollRange(f)
    ensures e.totalStudents == f.totalStudents
    ensures LeftHandedText(e.leftHandedChairs) == LeftHandedText(f.leftHandedChairs)
  {
    NatToStringInjective(e.totalStudents, f.totalStudents);
  }

  // ----------------------------------------------------------- on-screen table

  /** The room column of an HTML row: a cell spanning `rowspan` rows, or none. */
  datatype RoomCell = RoomSpan(roomId: string, rowspan: nat) | NoRoomCell

  datatype TableRow = TableRow(room: RoomCell, cells: RecordCells)

  /** The rows of one room: the first carries the room cell spanning the whole group. */
  function GroupRows(k: string, g: seq<AllocationEntry>): (rows: seq<TableRow>)
    ensures |rows| == |g|
  {
    seq(|g|, i requires 0 <= i < |g| =>
      TableRow(if i == 0 then RoomSpan(k, |g|) else NoRoomCell, CellsOf(g[i])))
  }

  /** The rows of the rooms `ks`, one room after another. */
  function TableRows(allocation: seq<AllocationEntry>, ks: seq<string>): seq<TableRow>
  {
    if ks == [] then []
    else GroupRows(ks[0], Select(allocation, RoomOf, ks[0])) + TableRows(allocation, ks[1..])
  }

  /** The on-screen table, rooms in first-seen order. */
  function Table(allocation: seq<AllocationEntry>): seq<TableRow>
  {
    TableRows(allocation, FirstSeen(allocation, RoomOf))
  }

  /** The records in the order the on-screen table lists them. */
  function DisplayOrder(allocation: seq<AllocationEntry>): seq<AllocationEntry>
  {
    ConcatGroups(allocation, RoomOf, FirstSeen(allocation, RoomOf))
  }

  /**
   * `displayResults`' row loop: group the records by room, then for each room
   * and each of its records emit a row, with the room cell on index 0 only.
   */
  method BuildTable(allocation: seq<AllocationEntry>) returns (rows: seq<TableRow>)
    ensures rows == Table(allocation)
  {
    var keys, grouped := GroupBy(allocation, RoomOf);
    rows := [];
    for r := 0 to |keys|
      invariant rows == TableRows(allocation, keys[..r])
    {
      var roomId := keys[r];
      var group := grouped[roomId];
      assert group == Select(allocation, RoomOf, roomId);
      var roomRows := BuildRoomRows(roomId, group);
      TableRowsNext(allocation, keys, r);
      rows := rows + roomRows;
    }
    assert keys[..|keys|] == keys;
  }

  /** The rows of the first `r + 1` keys are those of the first `r` and then the group of key `r`. */
  lemma {:induction false} TableRowsNext(allocation: seq<AllocationEntry>, keys: seq<string>, r: nat)
    requires r < |keys|
    ensures TableRows(allocation, keys[..r + 1])
         == TableRows(allocation, keys[..r]) + GroupRows(keys[r], Select(allocation, RoomOf, keys[r]))
  {
    TableRowsSnoc(allocation, keys[..r], keys[r]);
    assert keys[..r + 1] == keys[..r] + [keys[r]];
  }

  /** The inner `forEach((row, index) => ...)` over one room's records. */
  method BuildRoomRows(roomId: string, group: seq<AllocationEntry>) returns (rows: seq<TableRow>)
    ensures rows == GroupRows(roomId, group)
  {
    rows := [];
    var index := 0;
    while index < |group|
      invariant index <= |group|
      invariant rows == GroupRows(roomId, group)[..index]
    {
      var row := group[index];
      var cell := if index == 0 then RoomSpan(roomId, |group|) else NoRoomCell;
      assert GroupRows(roomId, group)[..index + 1]
          == GroupRows(roomId, group)[..index] + [TableRow(cell, CellsOf(row))];
      rows := rows + [TableRow(cell, CellsOf(row))];
      index := index + 1;
    }
    assert GroupRows(roomId, group)[..index] == GroupRows(roomId, group);
  }

  lemma {:induction false} TableRowsSnoc(allocation: seq<AllocationEntry>, ks: seq<string>, k: string)
    ensures TableRows(allocation, ks + [k])
         == TableRows(allocation, ks) + GroupRows(k, Select(allocation, RoomOf, k))
  {
    if ks != [] {
      assert (ks + [k])[1..] == ks[1..] + [k];
      TableRowsSnoc(allocation, ks[1..], k);
    }
  }

  // ------------------------------------------------------ what the table shows

  function RecordsCells(xs: seq<AllocationEntry>): (cs: seq<RecordCells>)
    ensures |cs| == |xs|
  {
    seq(|xs|, i requires 0 <= i < |xs| => CellsOf(xs[i]))
  }

  function TableCells(rows: seq<TableRow>): (cs: seq<RecordCells>)
    ensures |cs| == |rows|
  {
    seq(|rows|, i requires 0 <= i < |rows| => rows[i].cells)
  }

  /** Rooms of `xs`, each as the value a room column should show for it. */
  function ShownRooms(xs: seq<AllocationEntry>): (rs: seq<Option<string>>)
    ensures |rs| == |xs|
  {
    if xs == [] then [] else [Some(xs[0].roomId)] + ShownRooms(xs[1..])
  }

  /**
   * The room each row appears under once the browser lays out `rowspan`: a
   * room cell covers its own row and the next `rowspan - 1`. `None` marks
   * broken markup: a row no room cell covers, a room cell that starts inside
   * another's span or spans no row, or a span running past the last row.
   */
  function Layout(rows: seq<TableRow>, current: Option<string>, left: nat): seq<Option<string>>
  {
    if rows == [] then (if left == 0 then [] else [None])
    else match rows[0].room
      case RoomSpan(k, n) =>
        if left == 0 && n >= 1 then [Some(k)] + Layout(rows[1..], Some(k), n - 1)
        else [None] + Layout(rows[1..], None, 0)
      case NoRoomCell =>
        if left > 0 then [current] + Layout(rows[1..], current, left - 1)
        else [None] + Layout(rows[1..], None, 0)
  }

  /**
   * The on-screen table has one row per record: the records of the allocation
   * regrouped by room (a permutation of the allocation), each row printing
   * its record's cells and sitting under a room cell that shows its own room,
   * with the room cells exactly tiling the table.
   */
  lemma {:induction false} TableShows(allocation: seq<AllocationEntry>)
    ensures |Table(allocation)| == |allocation|
    ensures multiset(DisplayOrder(allocation)) == multiset(allocation)
    ensures TableCells(Table(allocation)) == RecordsCells(DisplayOrder(allocation))
    ensures Layout(Table(allocation), None, 0) == ShownRooms(DisplayOrder(allocation))
  {
    var ks := FirstSeen(allocation, RoomOf);
    GroupingIsPermutation(allocation, RoomOf);
    TableRowsCells(allocation, ks);
    TableRowsLayout(allocation, ks, None);
  }

  lemma {:induction false} TableRowsCells(allocation: seq<AllocationEntry>, ks: seq<string>)
    ensures TableCells(TableRows(allocation, ks)) == RecordsCells(ConcatGroups(allocation, RoomOf, ks))
  {
    if ks != [] {
      TableRowsCells(allocation, ks[1..]);
      var g := Select(allocation, RoomOf, ks[0]);
      var rest := ConcatGroups(allocation, RoomOf, ks[1..]);
      TableCellsAppend(GroupRows(ks[0], g), TableRows(allocation, ks[1..]));
      GroupRowsCells(ks[0], g);
      RecordsCellsAppend(g, rest);
    }
  }

  lemma {:induction false} TableCellsAppend(a: seq<TableRow>, b: seq<TableRow>)
    ensures TableCells(a + b) == TableCells(a) + TableCells(b)
  {
    assert forall i :: 0 <= i < |a + b| ==> TableCells(a + b)[i] == (TableCells(a) + TableCells(b))[i];
  }

  lemma {:induction false} RecordsCellsAppend(xs: seq<AllocationEntry>, ys: seq<AllocationEntry>)
    ensures RecordsCells(xs + ys) == RecordsCells(xs) + RecordsCells(ys)
  {
    assert forall i :: 0 <= i < |xs + ys| ==> RecordsCells(xs + ys)[i] == (RecordsCells(xs) + RecordsCells(ys))[i];
  }

  lemma {:induction false} GroupRowsCells(k: string, g: seq<AllocationEntry>)
    ensures TableCells(GroupRows(k, g)) == RecordsCells(g)
  {
    assert forall i :: 0 <= i < |g| ==> TableCells(GroupRows(k, g))[i] == RecordsCells(g)[i];
  }

  lemma {:induction false} TableRowsLayout(allocation: seq<AllocationEntry>, ks: seq<string>, c: Option<string>)
    ensures Layout(TableRows(allocation, ks), c, 0) == ShownRooms(ConcatGroups(allocation, RoomOf, ks))
  {
    if ks != [] {
      var g := Select(allocation, RoomOf, ks[0]);
      var tail := TableRows(allocation, ks[1..]);
      var rest := ConcatGroups(allocation, RoomOf, ks[1..]);
      if g == [] {
        assert GroupRows(ks[0], g) + tail == tail;
        assert g + rest == rest;
        TableRowsLayout(allocation, ks[1..], c);
      } else {
        GroupRowsLayout(ks[0], g, tail, c);
        TableRowsLayout(allocation, ks[1..], Some(ks[0]));
        ShownRoomsAppend(g, rest);
        ShownRoomsUniform(g, ks[0]);
      }
    }
  }

  function Repeat(x: Option<string>, n: nat): (r: seq<Option<string>>)
    ensures |r| == n && forall i :: 0 <= i < n ==> r[i] == x
  {
    if n == 0 then [] else [x] + Repeat(x, n - 1)
  }

  lemma {:induction false} ShownRoomsAppend(xs: seq<AllocationEntry>, ys: seq<AllocationEntry>)
    ensures ShownRooms(xs + ys) == ShownRooms(xs) + ShownRooms(ys)
  {
    if xs == [] {
      assert xs + ys == ys;
    } else {
      assert (xs + ys)[0] == xs[0];
      assert (xs + ys)[1..] == xs[1..] + ys;
      ShownRoomsAppend(xs[1..], ys);
    }
  }

  lemma {:induction false} ShownRoomsUniform(g: seq<AllocationEntry>, k: string)
    requires forall i :: 0 <= i < |g| ==> RoomOf(g[i]) == k
    ensures ShownRooms(g) == Repeat(Some(k), |g|)
  {
    if g != [] {
      assert forall i :: 0 <= i < |g| - 1 ==> g[1..][i] == g[i + 1];
      ShownRoomsUniform(g[1..], k);
    }
  }

  /** A group's rows lay out under their own room and leave no span open. */
  lemma {:induction false} GroupRowsLayout(k: string, g: seq<AllocationEntry>, tail: seq<TableRow>, c: Option<string>)
    requires g != []
    ensures Layout(GroupRows(k, g) + tail, c, 0) == Repeat(Some(k), |g|) + Layout(tail, Some(k), 0)
  {
    var rows := GroupRows(k, g);
    assert (rows + tail)[0] == TableRow(RoomSpan(k, |g|), CellsOf(g[0]));
    assert (rows + tail)[1..] == rows[1..] + tail;
    CoveredLayout(k, g, 1, tail);
  }

  lemma {:induction false} CoveredLayout(k: string, g: seq<AllocationEntry>, i: nat, tail: seq<TableRow>)
    requires 1 <= i <= |g|
    ensures Layout(GroupRows(k, g)[i..] + tail, Some(k), |g| - i)
         == Repeat(Some(k), |g| - i) + Layout(tail, Some(k), 0)
    decreases |g| - i
  {
    var rows := GroupRows(k, g)[i..] + tail;
    if i < |g| {
      assert rows[0] == GroupRows(k, g)[i];
      assert rows[1..] == GroupRows(k, g)[i + 1..] + tail;
      CoveredLayout(k, g, i + 1, tail);
    } else {
      assert rows == tail;
    }
  }

  // --------------------------------------------------------------- PDF table

  /** One row of the PDF body: the room text (possibly blank) and the record's cells. */
  datatype PdfRow = PdfRow(room: string, cells: RecordCells)

  /** The PDF row of record `i`: its room is blank when the record above has the same room. */
  function PdfRowAt(allocation: seq<AllocationEntry>, i: nat): PdfRow
    requires i < |allocation|
  {
    var repeated := i > 0 && allocation[i - 1].roomId == allocation[i].roomId;
    PdfRow(if repeated then "" else allocation[i].roomId, CellsOf(allocation[i]))
  }

  function PdfRows(allocation: seq<AllocationEntry>): (rows: seq<PdfRow>)
    ensures |rows| == |allocation|
  {
    seq(|allocation|, i requires 0 <= i < |allocation| => PdfRowAt(allocation, i))
  }

  /**
   * The `tableData` loop of the PDF handler: one row per record, in response
   * order, remembering the last room printed.
   */
  method BuildPdfRows(allocation: seq<AllocationEntry>) returns (tableData: seq<PdfRow>)
    ensures tableData == PdfRows(allocation)
  {
    tableData := [];
    var lastRoom: Option<string> := None;
    for i := 0 to |allocation|
      invariant |tableData| == i
      invariant forall j :: 0 <= j < i ==> tableData[j] == PdfRowAt(allocation, j)
      invariant lastRoom == if i == 0 then None else Some(allocation[i - 1].roomId)
    {
      var row := allocation[i];
      var roomText := if lastRoom == Some(row.roomId) then "" else row.roomId;
      tableData := tableData + [PdfRow(roomText, CellsOf(row))];
      lastRoom := Some(row.roomId);
    }
  }

  /**
   * The room a reader assigns to each PDF row: a printed room, or for a blank
   * cell the room of the row above (the blank cell's top border is erased).
   */
  function PdfLayout(rows: seq<PdfRow>, above: Option<string>): seq<Option<string>>
  {
    if rows == [] then []
    else
      var shown := if rows[0].room == "" then above else Some(rows[0].room);
      [shown] + PdfLayout(rows[1..], shown)
  }

  /**
   * The PDF has one row per record, in response order, with the record's
   * cells; the room cell is blank exactly when the room repeats the row above
   * (or is itself empty), so the first row always prints its room.
   */
  lemma {:induction false} PdfShows(allocation: seq<AllocationEntry>)
    ensures |PdfRows(allocation)| == |allocation|
    ensures forall i :: 0 <= i < |allocation| ==> PdfRows(allocation)[i].cells == CellsOf(allocation[i])
    ensures forall i :: 0 <= i < |allocation| ==>
              ((PdfRows(allocation)[i].room == "")
                 <==> ((i > 0 && allocation[i - 1].roomId == allocation[i].roomId) || allocation[i].roomId == ""))
    ensures forall i :: 0 <= i < |allocation| && PdfRows(allocation)[i].room != "" ==>
              PdfRows(allocation)[i].room == allocation[i].roomId
  {
  }

  /** With non-empty room ids, every PDF row reads as belonging to its own room. */
  lemma {:induction false} PdfReadsRooms(allocation: seq<AllocationEntry>)
    requires forall i :: 0 <= i < |allocation| ==> allocation[i].roomId != ""
    ensures PdfLayout(PdfRows(allocation), None) == ShownRooms(allocation)
  {
    PdfRowsLayout(allocation, 0, None);
    assert PdfRows(allocation)[0..] == PdfRows(allocation);
    assert allocation[0..] == allocation;
  }

  lemma {:induction false} PdfRowsLayout(allocation: seq<AllocationEntry>, i: nat, above: Option<string>)
    requires i <= |allocation|
    requires forall j :: 0 <= j < |allocation| ==> allocation[j].roomId != ""
    requires i > 0 ==> above == Some(allocation[i - 1].roomId)
    ensures PdfLayout(PdfRows(allocation)[i..], above) == ShownRooms(allocation[i..])
    decreases |allocation| - i
  {
    if i < |allocation| {
      var rows := PdfRows(allocation)[i..];
      assert rows[0] == PdfRowAt(allocation, i);
      assert rows[1..] == PdfRows(allocation)[i + 1..];
      assert allocation[i..][1..] == allocation[i + 1..];
      PdfRowsLayout(allocation, i + 1, Some(allocation[i].roomId));
    }
  }

  // ------------------------------------------------------- the views compared

  /** Appending a record with a new room adds that room, with the record as its only member. */
  lemma {:induction false} NewRoomStep(init: seq<AllocationEntry>, x: AllocationEntry)
    requires forall j :: 0 <= j < |init| ==> init[j].roomId != x.roomId
    ensures x.roomId !in FirstSeen(init, RoomOf)
    ensures FirstSeen(init + [x], RoomOf) == FirstSeen(init, RoomOf) + [x.roomId]
    ensures Select(init + [x], RoomOf, x.roomId) == [x]
  {
    FirstSeenAbsent(init, RoomOf, x.roomId);
    FirstSeenAppend(init, RoomOf, x);
    SelectAbsent(init, RoomOf, x.roomId);
    SelectAppend(init, RoomOf, x, x.roomId);
  }

  /**
   * When every room appears in one record only, as it does when the
   * classrooms have distinct ids, the table lists the records in response
   * order, like the PDF.
   */
  lemma {:induction false} DistinctRoomsDisplayOrder(allocation: seq<AllocationEntry>)
    requires forall i, j :: 0 <= i < j < |allocation| ==> allocation[i].roomId != allocation[j].roomId
    ensures DisplayOrder(allocation) == allocation
  {
    if allocation != [] {
      var init, x := allocation[..|allocation| - 1], allocation[|allocation| - 1];
      assert init + [x] == allocation;
      DistinctRoomsDisplayOrder(init);
      NewRoomStep(init, x);
      var ks := FirstSeen(init, RoomOf);
      ConcatGroupsUnchanged(init, x, ks);
      ConcatGroupsSnoc(allocation, ks, x.roomId);
    }
  }

  /**
   * With distinct room ids every room cell spans exactly one row and shows
   * the room of the record in that row, which is the record at the same
   * position in the response; the PDF prints every room, none blank.
   */
  lemma {:induction false} DistinctRoomsViewsAgree(allocation: seq<AllocationEntry>)
    requires forall i, j :: 0 <= i < j < |allocation| ==> allocation[i].roomId != allocation[j].roomId
    ensures |Table(allocation)| == |allocation|
    ensures forall i :: 0 <= i < |allocation| ==>
              Table(allocation)[i] == TableRow(RoomSpan(allocation[i].roomId, 1), CellsOf(allocation[i]))
    ensures forall i :: 0 <= i < |allocation| ==>
              PdfRows(allocation)[i] == PdfRow(allocation[i].roomId, CellsOf(allocation[i]))
  {
    DistinctRoomsTable(allocation);
  }

  lemma {:induction false} DistinctRoomsTable(allocation: seq<AllocationEntry>)
    requires forall i, j :: 0 <= i < j < |allocation| ==> allocation[i].roomId != allocation[j].roomId
    ensures |Table(allocation)| == |allocation|
    ensures forall i :: 0 <= i < |allocation| ==>
              Table(allocation)[i] == TableRow(RoomSpan(allocation[i].roomId, 1), CellsOf(allocation[i]))
  {
    if allocation != [] {
      var init, x := allocation[..|allocation| - 1], allocation[|allocation| - 1];
      assert init + [x] == allocation;
      DistinctRoomsTable(init);
      var row := TableRow(RoomSpan(x.roomId, 1), CellsOf(x));
      assert Table(allocation) == Table(init) + [row] by {
        NewRoomStep(init, x);
        var ks := FirstSeen(init, RoomOf);
        TableRowsUnchanged(init, x, ks);
        TableRowsSnoc(allocation, ks, x.roomId);
        assert GroupRows(x.roomId, [x]) == [row];
      }
      forall i | 0 <= i < |allocation|
        ensures Table(allocation)[i] == TableRow(RoomSpan(allocation[i].roomId, 1), CellsOf(allocation[i]))
      {
        if i < |init| {
          assert allocation[i] == init[i];
          assert Table(allocation)[i] == Table(init)[i];
        }
      }
    }
  }

  /**
   * For an allocation computed from classrooms with distinct ids, the screen
   * table and the PDF list the same rows in the same order.
   */
  lemma {:induction false} AllocatorViewsAgree(students: seq<Student>, classrooms: seq<Classroom>, years: seq<string>)
    requires UsableRooms(classrooms)
    requires forall i, j :: 0 <= i < j < |classrooms| ==> classrooms[i].roomId != classrooms[j].roomId
    requires Allocation(students, classrooms, years).Allocated?
    ensures var a := Allocation(students, classrooms, years).allocation;
      DisplayOrder(a) == a
      && |Table(a)| == |PdfRows(a)| == |a|
      && forall i :: 0 <= i < |a| ==>
           Table(a)[i] == TableRow(RoomSpan(PdfRows(a)[i].room, 1), PdfRows(a)[i].cells)
  {
    var a := Allocation(students, classrooms, years).allocation;
    AllocationRooms(students, classrooms, years);
    assert forall i, j :: 0 <= i < j < |a| ==> a[i].roomId != a[j].roomId by {
      forall i, j | 0 <= i < j < |a| ensures a[i].roomId != a[j].roomId {
        assert a[i].roomId == classrooms[i].roomId && a[j].roomId == classrooms[j].roomId;
      }
    }
    DistinctRoomsDisplayOrder(a);
    DistinctRoomsViewsAgree(a);
  }

  lemma {:induction false} ConcatGroupsSnoc(xs: seq<AllocationEntry>, ks: seq<string>, k: string)
    ensures ConcatGroups(xs, RoomOf, ks + [k]) == ConcatGroups(xs, RoomOf, ks) + Select(xs, RoomOf, k)
  {
    if ks != [] {
      var first, rest := Select(xs, RoomOf, ks[0]), ConcatGroups(xs, RoomOf, ks[1..]);
      assert (ks + [k])[0] == ks[0] && (ks + [k])[1..] == ks[1..] + [k];
      ConcatGroupsSnoc(xs, ks[1..], k);
      assert ConcatGroups(xs, RoomOf, ks + [k]) == first + (rest + Select(xs, RoomOf, k));
      assert first + (rest + Select(xs, RoomOf, k)) == (first + rest) + Select(xs, RoomOf, k);
    } else {
      assert ConcatGroups(xs, RoomOf, [k][1..]) == [];
    }
  }

  /** Groups of rooms other than `x`'s are untouched by appending `x`. */
  lemma {:induction false} ConcatGroupsUnchanged(xs: seq<AllocationEntry>, x: AllocationEntry, ks: seq<string>)
    requires x.roomId !in ks
    ensures ConcatGroups(xs + [x], RoomOf, ks) == ConcatGroups(xs, RoomOf, ks)
  {
    if ks != [] {
      SelectAppend(xs, RoomOf, x, ks[0]);
      ConcatGroupsUnchanged(xs, x, ks[1..]);
    }
  }

  lemma {:induction false} TableRowsUnchanged(xs: seq<AllocationEntry>, x: AllocationEntry, ks: seq<string>)
    requires x.roomId !in ks
    ensures TableRows(xs + [x], ks) == TableRows(xs, ks)
  {
    if ks != [] {
      SelectAppend(xs, RoomOf, x, ks[0]);
      TableRowsUnchanged(xs, x, ks[1..]);
    }
  }

  /**
   * When a room's records are interleaved with another room's, the views
   * disagree: the table pulls the room's records together under one cell
   * spanning two rows, the PDF keeps response order and prints the room twice.
   */
  lemma {:induction false} InterleavedRoomsViewsDiffer()
    ensures var a := [AllocationEntry("101", "CSE", "1", "C01", "C30", 30, None),
                      AllocationEntry("102", "CSE", "1", "C31", "C60", 30, None),
                      AllocationEntry("101", "ECE", "1", "E01", "E20", 20, None)];
      && DisplayOrder(a) == [a[0], a[2], a[1]]
      && |Table(a)| == 3
      && Table(a)[0].room == RoomSpan("101", 2) && Table(a)[1].room == NoRoomCell
      && PdfRows(a)[2].room == "101"
      && TableCells(Table(a)) != RecordsCells(a)
  {
    var e0 := AllocationEntry("101", "CSE", "1", "C01", "C30", 30, None);
    var e1 := AllocationEntry("102", "CSE", "1", "C31", "C60", 30, None);
    var e2 := AllocationEntry("101", "ECE", "1", "E01", "E20", 20, None);
    InterleavedDisplayOrder(e0, e1, e2);
    InterleavedTable(e0, e1, e2);
    assert TableCells(Table([e0, e1, e2]))[1] == CellsOf(e2) != CellsOf(e1) == RecordsCells([e0, e1, e2])[1];
  }

  lemma {:induction false} InterleavedDisplayOrder(e0: AllocationEntry, e1: AllocationEntry, e2: AllocationEntry)
    requires e0.roomId == e2.roomId == "101" && e1.roomId == "102"
    ensures DisplayOrder([e0, e1, e2]) == [e0, e2, e1]
  {
    var a := [e0, e1, e2];
    Interleaved3Groups(e0, e1, e2);
    assert DisplayOrder(a) == [e0, e2] + ConcatGroups(a, RoomOf, ["102"]);
    assert ConcatGroups(a, RoomOf, ["102"]) == [e1] + ConcatGroups(a, RoomOf, []);
  }

  lemma {:induction false} InterleavedTable(e0: AllocationEntry, e1: AllocationEntry, e2: AllocationEntry)
    requires e0.roomId == e2.roomId == "101" && e1.roomId == "102"
    ensures var t := Table([e0, e1, e2]);
      |t| == 3 && t[0] == TableRow(RoomSpan("101", 2), CellsOf(e0))
      && t[1] == TableRow(NoRoomCell, CellsOf(e2))
  {
    var a := [e0, e1, e2];
    Interleaved3Groups(e0, e1, e2);
    assert Table(a) == GroupRows("101", [e0, e2]) + TableRows(a, ["102"]);
    assert |TableRows(a, ["102"])| == 1;
  }

  lemma {:induction false} Interleaved3Groups(e0: AllocationEntry, e1: AllocationEntry, e2: AllocationEntry)
    requires e0.roomId == e2.roomId == "101" && e1.roomId == "102"
    ensures FirstSeen([e0, e1, e2], RoomOf) == ["101", "102"]
    ensures Select([e0, e1, e2], RoomOf, "101") == [e0, e2]
    ensures Select([e0, e1, e2], RoomOf, "102") == [e1]
  {
    assert "101"[2] != "102"[2];
    InterleavedKeys(e0, e1, e2);
    SelectOfThree(e0, e1, e2, "101");
    assert Pick(e0, "101") == [e0] && Pick(e1, "101") == [] && Pick(e2, "101") == [e2];
    SelectOfThree(e0, e1, e2, "102");
    assert Pick(e0, "102") == [] && Pick(e1, "102") == [e1] && Pick(e2, "102") == [];
  }

  lemma {:induction false} InterleavedKeys(e0: AllocationEntry, e1: AllocationEntry, e2: AllocationEntry)
    requires e0.roomId == e2.roomId == "101" && e1.roomId == "102"
    ensures FirstSeen([e0, e1, e2], RoomOf) == ["101", "102"]
  {
    var s1 := [e0];
    var s2 := s1 + [e1];
    assert FirstSeen(s1, RoomOf) == ["101"] by {
      assert [] + [e0] == s1;
      FirstSeenAppend([], RoomOf, e0);
    }
    assert FirstSeen(s2, RoomOf) == ["101", "102"] by {
      assert "101"[2] != "102"[2];
      FirstSeenAppend(s1, RoomOf, e1);
    }
    assert s2 + [e2] == [e0, e1, e2];
    FirstSeenAppend(s2, RoomOf, e2);
  }

  function Pick(e: AllocationEntry, k: string): seq<AllocationEntry>
  {
    if e.roomId == k then [e] else []
  }

  lemma {:induction false} SelectOfThree(e0: AllocationEntry, e1: AllocationEntry, e2: AllocationEntry, k: string)
    ensures Select([e0, e1, e2], RoomOf, k) == Pick(e0, k) + Pick(e1, k) + Pick(e2, k)
  {
    var s1 := [e0];
    var s2 := s1 + [e1];
    var s3 := s2 + [e2];
    assert [] + [e0] == s1;
    SelectAppend([], RoomOf, e0, k);
    assert Select(s1, RoomOf, k) == Pick(e0, k);
    SelectAppend(s1, RoomOf, e1, k);
    assert Select(s2, RoomOf, k) == Pick(e0, k) + Pick(e1, k);
    SelectAppend(s2, RoomOf, e2, k);
    assert s3 == [e0, e1, e2];
  }

  // ------------------------------------------- Object.keys order (as written)

  /** `String(ToUint32(k)) == k` with `k != "4294967295"`: the keys an object lists first. */
  predicate IsArrayIndex(k: string)
  {
    |k| >= 1 && AllDigits(k) && (|k| == 1 || k[0] != '0') && DigitsValue(k) < 0xFFFF_FFFF
  }

  function IndexValue(k: string): nat
  {
    if AllDigits(k) then DigitsValue(k) else 0
  }

  function IndexKeys(ks: seq<string>): (r: seq<string>)
    ensures forall i :: 0 <= i < |r| ==> IsArrayIndex(r[i])
  {
    if ks == [] then []
    else (if IsArrayIndex(ks[0]) then [ks[0]] else []) + IndexKeys(ks[1..])
  }

  function OtherKeys(ks: seq<string>): (r: seq<string>)
    ensures forall i :: 0 <= i < |r| ==> !IsArrayIndex(r[i])
  {
    if ks == [] then []
    else (if IsArrayIndex(ks[0]) then [] else [ks[0]]) + OtherKeys(ks[1..])
  }

  function InsertByIndex(k: string, s: seq<string>): (r: seq<string>)
    ensures multiset(r) == multiset(s) + multiset{k}
  {
    if s == [] || IndexValue(k) <= IndexValue(s[0]) then [k] + s
    else
      assert s == [s[0]] + s[1..];
      [s[0]] + InsertByIndex(k, s[1..])
  }

  function SortByIndex(s: seq<string>): (r: seq<string>)
    ensures multiset(r) == multiset(s)
  {
    if s == [] then []
    else
      assert s == [s[0]] + s[1..];
      InsertByIndex(s[0], SortByIndex(s[1..]))
  }

  /**
   * The order `Object.keys` gives the keys of an object whose properties were
   * created in the order `ks`: array-index keys first, by numeric value, then
   * the other keys in creation order.
   */
  function JsObjectKeys(ks: seq<string>): seq<string>
  {
    SortByIndex(IndexKeys(ks)) + OtherKeys(ks)
  }

  lemma {:induction false} KeysPartition(ks: seq<string>)
    ensures multiset(IndexKeys(ks)) + multiset(OtherKeys(ks)) == multiset(ks)
  {
    if ks != [] {
      KeysPartition(ks[1..]);
      assert ks == [ks[0]] + ks[1..];
    }
  }

  /**
   * `Object.keys` lists every key once, array-index keys before all others:
   * a reordering of the creation order.
   */
  lemma {:induction false} JsObjectKeysPermutation(ks: seq<string>)
    ensures multiset(JsObjectKeys(ks)) == multiset(ks)
    ensures forall i, j :: 0 <= i < j < |JsObjectKeys(ks)| && IsArrayIndex(JsObjectKeys(ks)[j]) ==>
              IsArrayIndex(JsObjectKeys(ks)[i])
  {
    KeysPartition(ks);
    var idx := SortByIndex(IndexKeys(ks));
    forall x | x in idx ensures IsArrayIndex(x) {
      assert x in multiset(idx);
      assert x in multiset(IndexKeys(ks));
    }
  }

  lemma {:induction false} NonNumericKeys(ks: seq<string>)
    requires forall i :: 0 <= i < |ks| ==> !IsArrayIndex(ks[i])
    ensures IndexKeys(ks) == [] && OtherKeys(ks) == ks
  {
    if ks != [] {
      NonNumericKeys(ks[1..]);
      assert ks == [ks[0]] + ks[1..];
    }
  }

  /** Without numeric room ids the two orders coincide. */
  lemma {:induction false} JsObjectKeysNonNumeric(ks: seq<string>)
    requires forall i :: 0 <= i < |ks| ==> !IsArrayIndex(ks[i])
    ensures JsObjectKeys(ks) == ks
  {
    NonNumericKeys(ks);
  }

  /** The table as the source builds it: groups in `Object.keys` order. */
  function TableAsWritten(allocation: seq<AllocationEntry>): seq<TableRow>
  {
    TableRows(allocation, JsObjectKeys(FirstSeen(allocation, RoomOf)))
  }

  /** Two numeric keys created in descending numeric order are listed ascending. */
  lemma {:induction false} NumericKeysSwap(k1: string, k2: string)
    requires IsArrayIndex(k1) && IsArrayIndex(k2) && IndexValue(k2) < IndexValue(k1)
    ensures JsObjectKeys([k1, k2]) == [k2, k1]
  {
    AllIndexKeys([k1, k2]);
    SortTwoByIndex(k1, k2);
    assert [k2, k1] + [] == [k2, k1];
  }

  lemma {:induction false} SortTwoByIndex(k1: string, k2: string)
    requires IndexValue(k2) < IndexValue(k1)
    ensures SortByIndex([k1, k2]) == [k2, k1]
  {
    assert [k1, k2][1..] == [k2] && [k2][1..] == [];
    assert SortByIndex([k2]) == [k2] by {
      assert SortByIndex([k2]) == InsertByIndex(k2, SortByIndex([]));
    }
    assert SortByIndex([k1, k2]) == InsertByIndex(k1, [k2]);
    assert InsertByIndex(k1, [k2]) == [k2] + InsertByIndex(k1, []);
  }

  lemma {:induction false} AllIndexKeys(ks: seq<string>)
    requires forall i :: 0 <= i < |ks| ==> IsArrayIndex(ks[i])
    ensures IndexKeys(ks) == ks && OtherKeys(ks) == []
  {
    if ks != [] {
      AllIndexKeys(ks[1..]);
      assert ks == [ks[0]] + ks[1..];
    }
  }

  /**
   * For two records of distinct numeric rooms listed in descending numeric
   * order, the table as written swaps them; the first-seen table does not.
   */
  lemma {:induction false} TwoNumericRoomsSwapped(e0: AllocationEntry, e1: AllocationEntry)
    requires IsArrayIndex(e0.roomId) && IsArrayIndex(e1.roomId)
    requires IndexValue(e1.roomId) < IndexValue(e0.roomId)
    ensures TableAsWritten([e0, e1]) == GroupRows(e1.roomId, [e1]) + GroupRows(e0.roomId, [e0])
    ensures Table([e0, e1]) == GroupRows(e0.roomId, [e0]) + GroupRows(e1.roomId, [e1])
  {
    TwoNumericRoomsAsWritten(e0, e1);
    TwoRoomsTable(e0, e1);
  }

  lemma {:induction false} TwoNumericRoomsAsWritten(e0: AllocationEntry, e1: AllocationEntry)
    requires IsArrayIndex(e0.roomId) && IsArrayIndex(e1.roomId)
    requires IndexValue(e1.roomId) < IndexValue(e0.roomId)
    ensures TableAsWritten([e0, e1]) == GroupRows(e1.roomId, [e1]) + GroupRows(e0.roomId, [e0])
  {
    var a := [e0, e1];
    assert e0.roomId != e1.roomId;
    TwoRooms(e0, e1);
    NumericKeysSwap(e0.roomId, e1.roomId);
    assert TableRows(a, [e0.roomId]) == GroupRows(e0.roomId, [e0]) + TableRows(a, []);
  }

  lemma {:induction false} TwoRoomsTable(e0: AllocationEntry, e1: AllocationEntry)
    requires e0.roomId != e1.roomId
    ensures Table([e0, e1]) == GroupRows(e0.roomId, [e0]) + GroupRows(e1.roomId, [e1])
  {
    var a := [e0, e1];
    TwoRooms(e0, e1);
    assert TableRows(a, [e1.roomId]) == GroupRows(e1.roomId, [e1]) + TableRows(a, []);
  }

  /** Two records of different rooms form two groups of one, in response order. */
  lemma {:induction false} TwoRooms(e0: AllocationEntry, e1: AllocationEntry)
    requires e0.roomId != e1.roomId
    ensures FirstSeen([e0, e1], RoomOf) == [e0.roomId, e1.roomId]
    ensures Select([e0, e1], RoomOf, e1.roomId) == [e1] && Select([e0, e1], RoomOf, e0.roomId) == [e0]
  {
    assert [] + [e0] == [e0] && [e0] + [e1] == [e0, e1];
    NewRoomStep([], e0);
    NewRoomStep([e0], e1);
    SelectAppend([e0], RoomOf, e1, e0.roomId);
  }

  lemma {:induction false} RoomNumbers()
    ensures IsArrayIndex("201") && IndexValue("201") == 201
    ensures IsArrayIndex("101") && IndexValue("101") == 101
  {
    assert "201"[..2] == "20" && "20"[..1] == "2" && "2"[..0] == "";
    assert DigitsValue("2") == 2;
    assert DigitsValue("20") == 20;
    assert DigitsValue("201") == 201;
    assert "101"[..2] == "10" && "10"[..1] == "1" && "1"[..0] == "";
    assert DigitsValue("1") == 1;
    assert DigitsValue("10") == 10;
    assert DigitsValue("101") == 101;
  }

  /**
   * Rooms "201" then "101" (classrooms listed in that order) come back from
   * the allocator in that order and the PDF keeps it, but the table as
   * written puts room 101 first; the first-seen table keeps response order.
   */
  lemma {:induction false} NumericRoomsReordered()
    ensures var a := [AllocationEntry("201", "CSE", "1", "C01", "C40", 40, None),
                      AllocationEntry("101", "CSE", "1", "C41", "C60", 20, None)];
      && |TableAsWritten(a)| == |Table(a)| == 2
      && TableAsWritten(a)[0].room == RoomSpan("101", 1)
      && Table(a)[0].room == RoomSpan("201", 1)
      && PdfRows(a)[0].room == "201"
  {
    RoomNumbers();
    TwoNumericRoomsSwapped(AllocationEntry("201", "CSE", "1", "C01", "C40", 40, None),
                           AllocationEntry("101", "CSE", "1", "C41", "C60", 20, None));
  }
}
