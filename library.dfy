/**
 * The running program of main.py: the module-level table connection, the five
 * form variables, the book-id entry and the tree view, as the fields of one
 * object, and each button handler as a method that updates them step by step.
 * Every handler is proved to do exactly what the matching Workflow function
 * says, and to keep the tree view a listing of the table.
 */
module LibraryApp {
  import opened Wrappers
  import opened Catalog
  import Workflow

  class Library {
    var books: Store          // the Books table
    var bookTitle: string     // the form's StringVars
    var bookId: BookId
    var author: string
    var status: Status
    var issuerId: string
    var idEditable: bool      // book_id_entry: 'normal' or 'disabled'
    var rows: seq<Row>        // the tree view's items

    /** The tree view shows every stored record and nothing else. */
    ghost predicate Valid()
      reads this
    {
      IsListing(rows, books)
    }

    function Form(): Workflow.Form
      reads this
    {
      Workflow.Form(bookTitle, bookId, author, status, issuerId)
    }

    function Snapshot(): Workflow.Session
      reads this
    {
      Workflow.Session(books, Form(), idEditable)
    }

    /**
     * Start-up: the table as found on disk (created empty if absent), the form
     * variables at their initial values, and the tree filled by refresh_display.
     */
    constructor (stored: Store)
      ensures Valid()
      ensures books == stored && Form() == Workflow.BlankForm && idEditable
    {
      books := stored;
      bookTitle := "";
      bookId := "";
      author := "";
      status := Available;
      issuerId := "";
      idEditable := true;
      var listed := ListAll(stored);
      rows := listed;
    }

    /** refresh_display: rebuild the tree from the table. */
    method RefreshDisplay()
      modifies this`rows
      ensures Valid()
    {
      rows := ListAll(books);
    }

    /** clear_inputs. */
    method ClearInputs()
      modifies this`bookTitle, this`bookId, this`author, this`status, this`issuerId, this`idEditable
      ensures Snapshot() == Workflow.ClearInputs(old(Snapshot()))
    {
      bookTitle := "";
      bookId := "";
      author := "";
      status := Available;
      issuerId := "";
      idEditable := true;
    }

    /**
     * The user typing into the entries and choosing from the status menu; a
     * disabled book-id entry ignores what is typed into it.
     */
    method EnterFields(title: string, id: BookId, writer: string, choice: Status)
      modifies this`bookTitle, this`bookId, this`author, this`status
      ensures bookTitle == title && author == writer && status == choice
      ensures bookId == if idEditable then id else old(bookId)
    {
      bookTitle := title;
      if idEditable {
        bookId := id;
      }
      author := writer;
      status := choice;
    }

    /** The issuer step of add_book and update_book. */
    method PromptIssuer(answer: Option<string>) returns (shown: seq<Workflow.Message>)
      modifies this`issuerId
      ensures Form() == Workflow.PromptIssuer(old(Form()), answer)
      ensures shown == Workflow.PromptMessages(old(Form()), answer)
    {
      shown := [];
      if status == Issued {
        var card := Workflow.GetIssuerId(answer);
        shown := Workflow.IssuerMessages(answer);
        issuerId := Workflow.AsVar(card);
      }
    }

    /** add_book. */
    method AddBook(answer: Option<string>, confirmed: bool) returns (shown: seq<Workflow.Message>)
      requires Valid()
      modifies this
      ensures Valid()
      ensures Workflow.Step(Snapshot(), shown) == Workflow.AddBook(old(Snapshot()), answer, confirmed)
    {
      shown := PromptIssuer(answer);
      if !confirmed {
        return;
      }
      var rec := Record(bookTitle, author, status, Workflow.OrNotApplicable(issuerId));
      match Insert(books, bookId, rec)
      case Failure(_) =>
        shown := shown + [Workflow.DuplicateEntry];
      case Success(after) =>
        books := after;
        RefreshDisplay();
        shown := shown + [Workflow.Added];
        ClearInputs();
    }

    /** update_book. */
    method UpdateBook(answer: Option<string>) returns (shown: seq<Workflow.Message>)
      requires Valid()
      modifies this
      ensures Valid()
      ensures Workflow.Step(Snapshot(), shown) == Workflow.UpdateBook(old(Snapshot()), answer)
    {
      shown := PromptIssuer(answer);
      books := Update(books, bookId, Record(bookTitle, author, status, issuerId));
      RefreshDisplay();
      ClearInputs();
    }

    /** view_record: the selection is one of the rows the tree shows. */
    method ViewRecord(selection: Option<Row>) returns (shown: seq<Workflow.Message>)
      requires Valid()
      requires selection.Some? ==> selection.value in rows
      modifies this`bookTitle, this`bookId, this`author, this`status, this`issuerId, this`idEditable
      ensures Valid()
      ensures Workflow.Step(Snapshot(), shown) == Workflow.ViewRecord(old(Snapshot()), selection)
      ensures selection.Some? ==> bookId in books && books[bookId] == Record(bookTitle, author, status, issuerId)
    {
      if selection.None? {
        shown := [Workflow.SelectionError];
        return;
      }
      var record := selection.value;
      ListedRowIsStored(rows, books, record);
      bookTitle := record.title;
      bookId := record.bookId;
      author := record.author;
      status := record.status;
      issuerId := record.issuerId;
      idEditable := false;
      shown := [];
    }

    /** remove_book. */
    method RemoveBook(selection: Option<Row>) returns (shown: seq<Workflow.Message>)
      requires Valid()
      requires selection.Some? ==> selection.value in rows
      modifies this`books, this`rows
      ensures Valid()
      ensures Workflow.Step(Snapshot(), shown) == Workflow.RemoveBook(old(Snapshot()), selection)
      ensures selection.Some? ==> |books| == |old(books)| - 1
    {
      if selection.None? {
        shown := [Workflow.SelectionError];
        return;
      }
      ListedRowIsStored(rows, books, selection.value);
      books := Delete(books, selection.value.bookId);
      RefreshDisplay();
      shown := [];
    }

    /** clear_inventory. */
    method ClearInventory(confirmed: bool) returns (shown: seq<Workflow.Message>)
      requires Valid()
      modifies this`books, this`rows
      ensures Valid()
      ensures Workflow.Step(Snapshot(), shown) == Workflow.ClearInventory(old(Snapshot()), confirmed)
      ensures confirmed ==> rows == []
    {
      shown := [];
      if confirmed {
        books := DeleteAll(books);
        RefreshDisplay();
      }
    }

    /**
     * toggle_availability. The status it branches on is the one shown in the
     * selected row, which is the stored one.
     */
    method ToggleAvailability(selection: Option<Row>, returned: bool, answer: Option<string>)
      returns (shown: seq<Workflow.Message>)
      requires Valid()
      requires selection.Some? ==> selection.value in rows
      modifies this`books, this`rows
      ensures Valid()
      ensures Workflow.Step(Snapshot(), shown) ==
        Workflow.ToggleAvailability(old(Snapshot()), selection, returned, answer)
      ensures selection.Some? ==>
        selection.value.bookId in old(books) &&
        selection.value.status == old(books)[selection.value.bookId].status
    {
      if selection.None? {
        shown := [Workflow.SelectionError];
        return;
      }
      var record := selection.value;
      ListedRowIsStored(rows, books, record);
      var id := record.bookId;
      shown := [];
      if record.status == Issued {
        if returned {
          books := SetStatus(books, id, Available, Workflow.NotApplicable);
        } else {
          shown := [Workflow.ActionDenied];
        }
      } else {
        var card := Workflow.GetIssuerId(answer);
        if card.Some? {
          books := SetStatus(books, id, Issued, card.value);
        } else {
          shown := Workflow.IssuerMessages(answer);
        }
      }
      RefreshDisplay();
    }
  }

  /**
   * A client session: add "Dune" as B1, try to add B1 again, load it, save it as
   * Issued to C42, then delete it, selecting rows the tree shows.
   */
  method DuneSession()
  {
    var dune := Record("Dune", "Herbert", Available, "N/A");
    var lib := new Library(map[]);
    lib.EnterFields("Dune", "B1", "Herbert", Available);
    assert lib.Snapshot() == Workflow.Session(map[], Workflow.Form("Dune", "B1", "Herbert", Available, ""), true);
    var shown := lib.AddBook(None, true);
    assert lib.books == map["B1" := dune] by {
      assert lib.books.Keys == {"B1"};
    }

    lib.EnterFields("Dune", "B1", "Herbert", Available);
    shown := lib.AddBook(None, true);
    assert shown == [Workflow.DuplicateEntry] && lib.books == map["B1" := dune];

    ListingShowsEveryRecord(lib.rows, lib.books, "B1");
    shown := lib.ViewRecord(Some(RowOf("B1", dune)));
    lib.EnterFields("Dune", "ignored", "Herbert", Issued);
    assert lib.Form() == Workflow.Form("Dune", "B1", "Herbert", Issued, "N/A");
    shown := lib.UpdateBook(Some("C42"));
    assert lib.books["B1"] == Record("Dune", "Herbert", Issued, "C42") && lib.books.Keys == {"B1"};

    ListingShowsEveryRecord(lib.rows, lib.books, "B1");
    shown := lib.RemoveBook(Some(RowOf("B1", lib.books["B1"])));
    assert lib.books.Keys == {};
  }
}
