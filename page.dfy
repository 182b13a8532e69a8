/**
 * The state the page keeps between clicks: the globals `currentAllocationData`,
 * `examDateFinal`, `examDateWithDay` and `examTimeFinal`, the error message
 * element and the results section. Generate runs the checks, then sends the
 * form and shows the reply; Download PDF turns what is kept into the rows and
 * name of the PDF.
 */
module Page {
  import opened Wrappers
  import opened Text
  import opened Allocator
  import opened Results
  import opened Validation

  /** How the request to `/allocate` ends: a decoded reply, or a thrown error with its message. */
  datatype Reply = Answered(result: AllocationResult) | RequestFailed(message: string)

  /** What `displayResults` writes into the results section. */
  datatype ResultsView = ResultsView(
    totalHalls: nat, totalStudents: nat, examDate: string, pdfTime: string, rows: seq<TableRow>)

  /** The texts and rows the PDF is made of, and the name it is saved under. */
  datatype PdfDocument = PdfDocument(header: seq<string>, body: seq<PdfRow>, fileName: string)

  const PdfTitle: seq<string> := [
    "SCMS SCHOOL OF ENGINEERING AND TECHNOLOGY",
    "APJ ABDUL KALAM TECHNOLOGICAL UNIVERSITY",
    "Internal Examination - Seating Arrangement"]

  /** The four header lines under the title: date, time, halls and students. */
  function PdfHeader(examDateWithDay: string, examTimeFinal: string, roomsUsed: nat, totalAllocated: nat): seq<string>
  {
    PdfTitle + ["DATE: " + examDateWithDay, "TIME: " + examTimeFinal,
                "Total Halls: " + NatToString(roomsUsed), "Total Students: " + NatToString(totalAllocated)]
  }

  /** The date shown with its weekday: `{date} ({day})`. */
  function DateWithDay(examDate: string, weekday: string -> string): string
  {
    examDate + " (" + weekday(examDate) + ")"
  }

  /**
   * The date the handler stores in `examDateFinal`: it is assigned as soon as
   * the date check passes, before the time checks run.
   */
  function StoredDate(f: FormInputs, pickerDate: string -> string): Option<string>
  {
    if f.studentFiles == 0 || f.classroomFiles == 0 || f.selectedYears == 0 then None
    else match ExamDateOf(f, pickerDate)
      case Success(d) => Some(d)
      case Failure(_) => None
  }

  /**
   * The date is stored exactly when the checks get past the date: on success
   * it is the accepted date, and it is also stored when only a time check
   * fails.
   */
  lemma {:induction false} StoredDateOutcome(f: FormInputs, pickerDate: string -> string)
    ensures var v := Validate(f, pickerDate);
      (StoredDate(f, pickerDate).Some? <==>
         v.Success? || v.error == MissingTimes || v.error == TimesOutOfOrder)
      && (v.Success? ==> StoredDate(f, pickerDate) == Some(v.value.examDate))
  {
    if f.studentFiles == 0 || f.classroomFiles == 0 || f.selectedYears == 0 {
      assert StoredDate(f, pickerDate) == None;
      assert Validate(f, pickerDate) == Failure(MissingFiles) || Validate(f, pickerDate) == Failure(NoYears);
    } else {
      match ExamDateOf(f, pickerDate)
      case Success(d) =>
        assert StoredDate(f, pickerDate) == Some(d);
      case Failure(e) =>
        assert StoredDate(f, pickerDate) == None;
        assert Validate(f, pickerDate) == Failure(e);
        assert e == BadManualDate || e == MissingDate;
    }
  }

  /**
   * A form whose date is fine but whose times are missing still replaces the
   * stored date, while the date shown with its weekday stays as it was.
   */
  lemma {:induction false} TimeFailureStoresDate(pickerDate: string -> string)
    ensures var f := FormInputs(1, 1, 1, None, Some("01/02/2025"), None, None);
      Validate(f, pickerDate) == Failure(MissingTimes)
      && StoredDate(f, pickerDate) == Some("01/02/2025")
  {
    var f := FormInputs(1, 1, 1, None, Some("01/02/2025"), None, None);
    assert Trim("01/02/2025") == "01/02/2025" by {
      assert !IsJsWhitespace('0') && !IsJsWhitespace('5');
    }
    assert DatePattern("01/02/2025");
  }

  class SeatingPage {
    /** The last successful reply, as `result.success` left it. */
    var currentAllocationData: Option<AllocationResult>
    var examDateFinal: string
    var examDateWithDay: string
    var examTimeFinal: string
    /** The text of the error element while it is shown. */
    var errorText: Option<string>
    /** The results section while it is shown. */
    var results: Option<ResultsView>

    /** Only successful replies are kept. */
    ghost predicate Valid()
      reads this
    {
      currentAllocationData.Some? ==> currentAllocationData.value.Allocated?
    }

    constructor ()
      ensures Valid()
      ensures currentAllocationData == None && errorText == None && results == None
      ensures examDateFinal == "" && examDateWithDay == "" && examTimeFinal == ""
    {
      currentAllocationData := None;
      examDateFinal := "";
      examDateWithDay := "";
      examTimeFinal := "";
      errorText := None;
      results := None;
    }

    /**
     * The checks of the Generate click, in the order they run, each stopping
     * at its failure; `examDateFinal` is assigned as soon as the date check
     * passes, so a form whose times fail still replaces it.
     */
    method CheckForm(f: FormInputs, pickerDate: string -> string) returns (outcome: Result<Accepted, FormError>)
      modifies this`examDateFinal
      ensures outcome == Validate(f, pickerDate)
      ensures examDateFinal == (match StoredDate(f, pickerDate) case Some(d) => d case None => old(examDateFinal))
    {
      if f.studentFiles == 0 || f.classroomFiles == 0 {
        return Failure(MissingFiles);
      }
      if f.selectedYears == 0 {
        return Failure(NoYears);
      }
      var manual := ManualText(f);
      if manual != "" {
        if !DatePattern(manual) {
          return Failure(BadManualDate);
        }
        examDateFinal := manual;
      } else if Truthy(f.datePicker) {
        examDateFinal := pickerDate(f.datePicker.value);
      } else {
        return Failure(MissingDate);
      }
      if !Truthy(f.startTime) || !Truthy(f.endTime) {
        return Failure(MissingTimes);
      }
      var startTime, endTime := f.startTime.value, f.endTime.value;
      if LexLessEq(endTime, startTime) {
        return Failure(TimesOutOfOrder);
      }
      outcome := Success(Accepted(examDateFinal, startTime, endTime));
    }

    /**
     * The Generate click. `pickerDate` stands for the picker conversion,
     * `weekday` for `getDayFromDate`, and `reply` for what the request to
     * `/allocate` would bring; it is read only when every check passes.
     */
    method Generate(f: FormInputs, pickerDate: string -> string, weekday: string -> string, reply: Reply)
      requires Valid()
      modifies this
      ensures Valid()
      ensures examDateFinal == (match StoredDate(f, pickerDate) case Some(d) => d case None => old(examDateFinal))
      ensures var v := Validate(f, pickerDate);
        v.Failure? ==>
          errorText == Some(Message(v.error))
          && currentAllocationData == old(currentAllocationData) && results == old(results)
          && examDateWithDay == old(examDateWithDay) && examTimeFinal == old(examTimeFinal)
      ensures var v := Validate(f, pickerDate);
        v.Success? ==>
          examTimeFinal == ExamTimeText(v.value.startTime, v.value.endTime)
          && examDateWithDay == DateWithDay(v.value.examDate, weekday)
          && match reply
             case Answered(Allocated(allocation, _, totalAllocated, _, roomsUsed)) =>
               currentAllocationData == Some(reply.result) && errorText == None
               && results == Some(ResultsView(roomsUsed, totalAllocated, examDateWithDay, examTimeFinal,
                                              Table(allocation)))
             case Answered(NotAllocated(error)) =>
               currentAllocationData == old(currentAllocationData) && errorText == Some(error) && results == None
             case RequestFailed(message) =>
               currentAllocationData == old(currentAllocationData)
               && errorText == Some("An error occurred: " + message) && results == None
    {
      var outcome := CheckForm(f, pickerDate);
      if outcome.Failure? {
        errorText := Some(Message(outcome.error));
      } else {
        Proceed(outcome.value, weekday, reply);
      }
    }

    /**
     * The rest of the click once every check has passed: the time and the
     * date with its weekday are kept, the error and the results are hidden,
     * and the reply is shown.
     */
    method Proceed(form: Accepted, weekday: string -> string, reply: Reply)
      requires Valid()
      modifies this`examTimeFinal, this`examDateWithDay, this`currentAllocationData, this`errorText, this`results
      ensures Valid()
      ensures examTimeFinal == ExamTimeText(form.startTime, form.endTime)
      ensures examDateWithDay == DateWithDay(form.examDate, weekday)
      ensures match reply
        case Answered(Allocated(allocation, _, totalAllocated, _, roomsUsed)) =>
          currentAllocationData == Some(reply.result) && errorText == None
          && results == Some(ResultsView(roomsUsed, totalAllocated, examDateWithDay, examTimeFinal, Table(allocation)))
        case Answered(NotAllocated(error)) =>
          currentAllocationData == old(currentAllocationData) && errorText == Some(error) && results == None
        case RequestFailed(message) =>
          currentAllocationData == old(currentAllocationData)
          && errorText == Some("An error occurred: " + message) && results == None
    {
      examTimeFinal := ExamTimeText(form.startTime, form.endTime);
      examDateWithDay := DateWithDay(form.examDate, weekday);
      errorText := None;
      results := None;
      ShowReply(reply);
    }

    /**
     * What happens once the request to `/allocate` has ended: a successful
     * reply is kept and shown, an unsuccessful one shows its error, a thrown
     * error shows its message.
     */
    method ShowReply(reply: Reply)
      requires Valid()
      modifies this`currentAllocationData, this`errorText, this`results
      ensures Valid()
      ensures match reply
        case Answered(Allocated(allocation, _, totalAllocated, _, roomsUsed)) =>
          currentAllocationData == Some(reply.result) && errorText == old(errorText)
          && results == Some(ResultsView(roomsUsed, totalAllocated, examDateWithDay, examTimeFinal, Table(allocation)))
        case Answered(NotAllocated(error)) =>
          currentAllocationData == old(currentAllocationData) && errorText == Some(error) && results == old(results)
        case RequestFailed(message) =>
          currentAllocationData == old(currentAllocationData)
          && errorText == Some("An error occurred: " + message) && results == old(results)
    {
      match reply {
        case Answered(result) =>
          if result.Allocated? {
            currentAllocationData := Some(result);
            var rows := BuildTable(result.allocation);
            results := Some(ResultsView(result.roomsUsed, result.totalAllocated, examDateWithDay, examTimeFinal, rows));
          } else {
            errorText := Some(result.error);
          }
        case RequestFailed(message) =>
          errorText := Some("An error occurred: " + message);
      }
    }

    /**
     * The Download PDF click: nothing without a kept reply; otherwise the
     * header from the kept date, time and totals, one body row per entry of
     * the kept allocation, and the file name from `examDateFinal`.
     */
    method DownloadPdf() returns (doc: Option<PdfDocument>)
      requires Valid()
      ensures currentAllocationData.None? <==> doc.None?
      ensures currentAllocationData.Some? ==>
        var data := currentAllocationData.value;
        doc == Some(PdfDocument(
          PdfHeader(examDateWithDay, examTimeFinal, data.roomsUsed, data.totalAllocated),
          PdfRows(data.allocation),
          PdfFileName(examDateFinal)))
    {
      if currentAllocationData.None? {
        return None;
      }
      var data := currentAllocationData.value;
      var body := BuildPdfRows(data.allocation);
      var header := PdfTitle + ["DATE: " + examDateWithDay, "TIME: " + examTimeFinal,
                                "Total Halls: " + NatToString(data.roomsUsed),
                                "Total Students: " + NatToString(data.totalAllocated)];
      var name := "seating_arrangement_" + ReplaceAll(examDateFinal, '/', '-') + ".pdf";
      doc := Some(PdfDocument(header, body, name));
    }
  }
}
