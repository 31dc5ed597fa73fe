/**
 * The checkout workflow of main.py: what each button handler does to the table,
 * to the five form variables and to the book-id entry, with the dialogs turned
 * into inputs (a yes/no answer, the text typed into the issuer prompt or None
 * when it was cancelled) and the error pop-ups into the list of messages shown.
 */
module Workflow {
  import opened Wrappers
  import opened Catalog

  /** The issuer value of a record that is not checked out. */
  const NotApplicable := "N/A"

  /** The form variables book_title, book_id, author, status and issuer_id. */
  datatype Form = Form(title: string, bookId: BookId, author: string, status: Status, issuerId: string)

  /** The form as clear_inputs leaves it (and as the program starts). */
  const BlankForm := Form("", "", "", Available, "")

  /** The table, the form, and whether the book-id entry accepts typing. */
  datatype Session = Session(books: Store, form: Form, idEditable: bool)

  /** The error and information pop-ups. */
  datatype Message = InvalidEntry | DuplicateEntry | Added | SelectionError | ActionDenied

  /** The state after an action and the pop-ups it showed, in order. */
  datatype Step = Step(after: Session, shown: seq<Message>)

  /** get_issuer_id: the prompt's answer, refused when it was cancelled or left empty. */
  function GetIssuerId(answer: Option<string>): (r: Option<string>)
    ensures r.Some? <==> answer.Some? && answer.value != ""
    ensures r.Some? ==> r == answer
  {
    if answer.Some? && answer.value != "" then answer else None
  }

  /** The pop-up get_issuer_id shows: one InvalidEntry when it refuses the answer. */
  function IssuerMessages(answer: Option<string>): (shown: seq<Message>)
    ensures shown == [] <==> GetIssuerId(answer).Some?
    ensures shown != [] ==> shown == [InvalidEntry]
  {
    if GetIssuerId(answer).None? then [InvalidEntry] else []
  }

  /**
   * The value issuer_id holds after `issuer_id.set(...)` of an optional string; an
   * absent value is read as the empty string.
   */
  function AsVar(issuer: Option<string>): (r: string)
    ensures issuer.Some? ==> r == issuer.value
    ensures issuer.None? ==> r == ""
  {
    if issuer.Some? then issuer.value else ""
  }

  /**
   * The issuer step shared by add_book and update_book: when the form says Issued,
   * issuer_id is overwritten with the prompt's result, and nothing is aborted when
   * that result is refused.
   */
  function PromptIssuer(f: Form, answer: Option<string>): (g: Form)
    ensures g.(issuerId := f.issuerId) == f
    ensures f.status == Available ==> g == f
    ensures f.status == Issued ==> g.issuerId == (if answer.Some? then answer.value else "")
  {
    if f.status == Issued then f.(issuerId := AsVar(GetIssuerId(answer))) else f
  }

  /** The pop-ups of the issuer step. */
  function PromptMessages(f: Form, answer: Option<string>): (shown: seq<Message>)
    ensures f.status == Available ==> shown == []
    ensures f.status == Issued ==> shown == IssuerMessages(answer)
    ensures shown == [InvalidEntry] <==> f.status == Issued && (answer.None? || answer.value == "")
    ensures shown != [InvalidEntry] ==> shown == []
  {
    if f.status == Issued then IssuerMessages(answer) else []
  }

  /** Python's `issuer or 'N/A'`: an empty issuer is stored as the sentinel. */
  function OrNotApplicable(issuer: string): (r: string)
    ensures r != ""
    ensures issuer != "" ==> r == issuer
    ensures issuer == "" ==> r == NotApplicable
  {
    if issuer != "" then issuer else NotApplicable
  }

  /** clear_inputs: every field blank, status back to Available, the id entry editable. */
  function ClearInputs(s: Session): (r: Session)
    ensures r.books == s.books
    ensures r.form.title == "" && r.form.bookId == "" && r.form.author == "" && r.form.issuerId == ""
    ensures r.form.status == Available && r.idEditable
  {
    Session(s.books, BlankForm, true)
  }

  /**
   * add_book: the issuer step, then the confirmation, then the INSERT of the form
   * (issuer or 'N/A'). A refused insert keeps the form for correction; a successful
   * one clears it.
   */
  function AddBook(s: Session, answer: Option<string>, confirmed: bool): (r: Step)
    ensures r.after.idEditable == (s.idEditable || r.after.books != s.books)
    ensures !confirmed ==>
      r.after.books == s.books && r.after.form == PromptIssuer(s.form, answer) &&
      r.shown == PromptMessages(s.form, answer)
    ensures confirmed && s.form.bookId in s.books ==>
      r.after.books == s.books && r.after.form == PromptIssuer(s.form, answer) &&
      r.shown == PromptMessages(s.form, answer) + [DuplicateEntry]
    ensures confirmed && s.form.bookId !in s.books ==>
      && r.after.books.Keys == s.books.Keys + {s.form.bookId}
      && (forall k :: k in s.books ==> r.after.books[k] == s.books[k])
      && r.after.books[s.form.bookId] ==
           Record(s.form.title, s.form.author, s.form.status,
                  OrNotApplicable(PromptIssuer(s.form, answer).issuerId))
      && r.after.form == BlankForm
      && r.shown == PromptMessages(s.form, answer) + [Added]
  {
    var f := PromptIssuer(s.form, answer);
    var prompted := PromptMessages(s.form, answer);
    if !confirmed then
      Step(s.(form := f), prompted)
    else
      match Insert(s.books, f.bookId, Record(f.title, f.author, f.status, OrNotApplicable(f.issuerId)))
      case Failure(_) => Step(s.(form := f), prompted + [DuplicateEntry])
      case Success(after) => Step(ClearInputs(s.(books := after)), prompted + [Added])
  }

  /**
   * update_book: the issuer step (repeated on every update of an Issued form), then
   * the UPDATE keyed by the form's book id with the form's issuer verbatim, then
   * clear_inputs. No confirmation.
   */
  function UpdateBook(s: Session, answer: Option<string>): (r: Step)
    ensures r.after.books.Keys == s.books.Keys
    ensures s.form.bookId in s.books ==>
      r.after.books[s.form.bookId] ==
        Record(s.form.title, s.form.author, s.form.status, PromptIssuer(s.form, answer).issuerId)
    ensures forall k :: k in s.books && k != s.form.bookId ==> r.after.books[k] == s.books[k]
    ensures s.form.bookId !in s.books ==> r.after.books == s.books
    ensures r.after.form == BlankForm && r.after.idEditable
    ensures r.shown == PromptMessages(s.form, answer)
  {
    var f := PromptIssuer(s.form, answer);
    var books := Update(s.books, f.bookId, Record(f.title, f.author, f.status, f.issuerId));
    Step(ClearInputs(s.(books := books)), PromptMessages(s.form, answer))
  }

  /** remove_book: needs a selected row; deletes the record with that row's book id. */
  function RemoveBook(s: Session, selection: Option<Row>): (r: Step)
    ensures r.after.form == s.form && r.after.idEditable == s.idEditable
    ensures selection.None? ==> r.after.books == s.books && r.shown == [SelectionError]
    ensures selection.Some? ==>
      && r.after.books.Keys == s.books.Keys - {selection.value.bookId}
      && (forall k :: k in r.after.books ==> r.after.books[k] == s.books[k])
      && r.shown == []
  {
    match selection
    case None => Step(s, [SelectionError])
    case Some(row) => Step(s.(books := Delete(s.books, row.bookId)), [])
  }

  /** clear_inventory: on confirmation no record is left; otherwise nothing changes. */
  function ClearInventory(s: Session, confirmed: bool): (r: Step)
    ensures r.after.form == s.form && r.after.idEditable == s.idEditable
    ensures confirmed ==> |r.after.books| == 0
    ensures !confirmed ==> r.after.books == s.books
    ensures r.shown == []
  {
    if confirmed then Step(s.(books := DeleteAll(s.books)), []) else Step(s, [])
  }

  /**
   * toggle_availability: the two-state machine, driven by the status shown in the
   * selected row. Issued -> Available needs the return to be confirmed and resets
   * the issuer to 'N/A'; Available -> Issued needs an accepted issuer id, which it
   * stores. A refused transition changes nothing.
   */
  function ToggleAvailability(s: Session, selection: Option<Row>, returned: bool, answer: Option<string>): (r: Step)
    ensures r.after.form == s.form && r.after.idEditable == s.idEditable
    ensures r.after.books.Keys == s.books.Keys
    ensures selection.None? ==> r.after.books == s.books && r.shown == [SelectionError]
    ensures selection.Some? ==>
      forall k :: k in s.books && k != selection.value.bookId ==> r.after.books[k] == s.books[k]
    ensures selection.Some? && selection.value.status == Issued ==>
      if returned then
        && r.shown == []
        && (selection.value.bookId in s.books ==>
              r.after.books[selection.value.bookId] ==
                s.books[selection.value.bookId].(status := Available, issuerId := NotApplicable))
      else
        r.after.books == s.books && r.shown == [ActionDenied]
    ensures selection.Some? && selection.value.status == Available ==>
      if answer.Some? && answer.value != "" then
        && r.shown == []
        && (selection.value.bookId in s.books ==>
              r.after.books[selection.value.bookId] ==
                s.books[selection.value.bookId].(status := Issued, issuerId := answer.value))
      else
        r.after.books == s.books && r.shown == [InvalidEntry]
  {
    match selection
    case None => Step(s, [SelectionError])
    case Some(row) =>
      if row.status == Issued then
        if returned then Step(s.(books := SetStatus(s.books, row.bookId, Available, NotApplicable)), [])
        else Step(s, [ActionDenied])
      else
        match GetIssuerId(answer)
        case None => Step(s, IssuerMessages(answer))
        case Some(card) => Step(s.(books := SetStatus(s.books, row.bookId, Issued, card)), [])
  }

  /** view_record: needs a selected row; loads it into the form and locks the id entry. */
  function ViewRecord(s: Session, selection: Option<Row>): (r: Step)
    ensures r.after.books == s.books
    ensures selection.None? ==> r.after == s && r.shown == [SelectionError]
    ensures selection.Some? ==>
      && RowOf(r.after.form.bookId,
               Record(r.after.form.title, r.after.form.author, r.after.form.status, r.after.form.issuerId))
           == selection.value
      && !r.after.idEditable
      && r.shown == []
  {
    match selection
    case None => Step(s, [SelectionError])
    case Some(row) =>
      Step(s.(form := Form(row.title, row.bookId, row.author, row.status, row.issuerId), idEditable := false), [])
  }

  // ---------------------------------------------------------------------------
  // Properties relating several actions
  // ---------------------------------------------------------------------------

  /** The checkout rule: an Available record carries 'N/A', an Issued one a non-empty issuer. */
  predicate Consistent(rec: Record)
  {
    && (rec.status == Available ==> rec.issuerId == NotApplicable)
    && (rec.status == Issued ==> rec.issuerId != "")
  }

  predicate AllConsistent(books: Store)
  {
    forall k :: k in books ==> Consistent(books[k])
  }

  /** Toggling keeps every record consistent (for any selection and any answers). */
  lemma ToggleKeepsConsistent(s: Session, selection: Option<Row>, returned: bool, answer: Option<string>)
    requires AllConsistent(s.books)
    ensures AllConsistent(ToggleAvailability(s, selection, returned, answer).after.books)
  {
  }

  /** Removing one record or clearing the inventory keeps every record consistent. */
  lemma RemoveAndClearKeepConsistent(s: Session, selection: Option<Row>, confirmed: bool)
    requires AllConsistent(s.books)
    ensures AllConsistent(RemoveBook(s, selection).after.books)
    ensures AllConsistent(ClearInventory(s, confirmed).after.books)
  {
  }

  /**
   * Issuing a book and then confirming its return restores the record except that
   * it is Available with issuer 'N/A'; the other records and the form are untouched.
   * The second toggle is driven by the refreshed row of the same book.
   */
  lemma ToggleRoundTrip(s: Session, id: BookId, card: string, returned: bool, answer: Option<string>)
    requires id in s.books && s.books[id].status == Available && card != ""
    ensures var s1 := ToggleAvailability(s, Some(RowOf(id, s.books[id])), returned, Some(card)).after;
      && id in s1.books
      && s1.books[id] == s.books[id].(status := Issued, issuerId := card)
      && ToggleAvailability(s1, Some(RowOf(id, s1.books[id])), true, answer).after ==
           s.(books := s.books[id := s.books[id].(status := Available, issuerId := NotApplicable)])
  {
  }

  /** For a consistent record the issue-then-return round trip gives back the session exactly. */
  lemma ToggleRoundTripRestores(s: Session, id: BookId, card: string, returned: bool, answer: Option<string>)
    requires id in s.books && s.books[id].status == Available && Consistent(s.books[id]) && card != ""
    ensures var s1 := ToggleAvailability(s, Some(RowOf(id, s.books[id])), returned, Some(card)).after;
      id in s1.books && ToggleAvailability(s1, Some(RowOf(id, s1.books[id])), true, answer).after == s
  {
  }

  /**
   * Loading a stored record into the form and saving it again leaves the table as it
   * was, provided the re-prompt of an Issued record is answered with its issuer.
   */
  lemma ViewThenUpdateKeepsStore(s: Session, id: BookId, answer: Option<string>)
    requires id in s.books
    requires s.books[id].status == Issued ==> answer == Some(s.books[id].issuerId)
    ensures UpdateBook(ViewRecord(s, Some(RowOf(id, s.books[id]))).after, answer).after.books == s.books
  {
  }

  /**
   * add_book does not stop at a refused issuer: with the form on Issued, a cancelled
   * or empty prompt and a confirmation, the record is inserted as Issued to 'N/A'.
   */
  lemma AddIssuedWithoutIssuer(s: Session, answer: Option<string>)
    requires s.form.status == Issued && s.form.bookId !in s.books
    requires answer.None? || answer.value == ""
    ensures var r := AddBook(s, answer, true);
      && r.shown == [InvalidEntry, Added]
      && r.after.books[s.form.bookId] == Record(s.form.title, s.form.author, Issued, NotApplicable)
  {
  }

  /**
   * add_book can store an Available record with a real issuer: an add on Issued with
   * an issuer that is declined leaves that issuer in the form, and a later confirmed
   * add on Available stores it.
   */
  lemma AddMayBreakConsistent()
    ensures var s0 := Session(map[], Form("Dune", "B1", "Herbert", Issued, ""), true);
      var s1 := AddBook(s0, Some("C7"), false).after;
      var s2 := AddBook(s1.(form := s1.form.(status := Available)), None, true).after;
      "B1" in s2.books && !AllConsistent(s2.books)
  {
  }

  /**
   * update_book can store an Issued record with an empty issuer: load an Issued
   * record, save it, and cancel the issuer prompt that the save repeats.
   */
  lemma UpdateMayBreakConsistent(s: Session, id: BookId)
    requires id in s.books && s.books[id].status == Issued
    ensures var v := ViewRecord(s, Some(RowOf(id, s.books[id]))).after;
      var u := UpdateBook(v, None);
      && u.shown == [InvalidEntry]
      && u.after.books[id] == s.books[id].(issuerId := "")
      && !Consistent(u.after.books[id])
  {
  }
}
