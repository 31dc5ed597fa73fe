/**
 * The `Books` table of main.py (lines 13-21) and the SQL statements the program
 * runs against it. `Book_ID` is the primary key, so the table is a map from that
 * key to the remaining four columns; each statement is one atomic map update.
 */
module Catalog {
  import opened Wrappers

  type BookId = string

  /** The two values the Status column takes (the form's option menu offers only these). */
  datatype Status = Available | Issued

  /** The non-key columns of a row: Title, Author, Status, Issuer_ID. */
  datatype Record = Record(title: string, author: string, status: Status, issuerId: string)

  /** The whole table: one record per distinct Book_ID. */
  type Store = map<BookId, Record>

  /** Why an INSERT is refused: the primary-key constraint (sqlite3.IntegrityError). */
  datatype StoreError = IntegrityError

  /** One row as `SELECT *` returns it and the tree view shows it, in column order. */
  datatype Row = Row(title: string, bookId: BookId, author: string, status: Status, issuerId: string)

  /** The displayed row of the record stored under `id`; it loses nothing. */
  function RowOf(id: BookId, rec: Record): (row: Row)
    ensures row.bookId == id
    ensures Record(row.title, row.author, row.status, row.issuerId) == rec
  {
    Row(rec.title, id, rec.author, rec.status, rec.issuerId)
  }

  /** INSERT INTO Books: refused when the key is taken, otherwise adds exactly one record. */
  function Insert(books: Store, id: BookId, rec: Record): (r: Result<Store, StoreError>)
    ensures r.Failure? <==> id in books
    ensures r.Success? ==> r.value.Keys == books.Keys + {id} && r.value[id] == rec
    ensures r.Success? ==> forall k :: k in books ==> r.value[k] == books[k]
  {
    if id in books then Failure(IntegrityError) else Success(books[id := rec])
  }

  /**
   * UPDATE Books SET Title, Author, Status, Issuer_ID WHERE Book_ID = id: overwrites
   * the four non-key columns of that record; no key changes; a missing key matches no row.
   */
  function Update(books: Store, id: BookId, rec: Record): (r: Store)
    ensures r.Keys == books.Keys
    ensures id in books ==> r[id] == rec
    ensures forall k :: k in books && k != id ==> r[k] == books[k]
    ensures id !in books ==> r == books
  {
    if id in books then books[id := rec] else books
  }

  /**
   * UPDATE Books SET Status, Issuer_ID WHERE Book_ID = id: changes only those two
   * columns of that record and nothing else.
   */
  function SetStatus(books: Store, id: BookId, status: Status, issuer: string): (r: Store)
    ensures r.Keys == books.Keys
    ensures id in books ==> r[id].title == books[id].title && r[id].author == books[id].author
    ensures id in books ==> r[id].status == status && r[id].issuerId == issuer
    ensures forall k :: k in books && k != id ==> r[k] == books[k]
  {
    if id in books then books[id := books[id].(status := status, issuerId := issuer)] else books
  }

  /** DELETE FROM Books WHERE Book_ID = id: removes that one key and keeps every other record. */
  function Delete(books: Store, id: BookId): (r: Store)
    ensures r.Keys == books.Keys - {id}
    ensures forall k :: k in r ==> r[k] == books[k]
  {
    books - {id}
  }

  /** DELETE FROM Books: no record is left. */
  function DeleteAll(books: Store): (r: Store)
    ensures forall k :: k !in r
  {
    map[]
  }

  /** Inserting a fresh key and deleting it again gives back the table. */
  lemma InsertThenDelete(books: Store, id: BookId, rec: Record)
    requires id !in books
    ensures Insert(books, id, rec).Success?
    ensures Delete(Insert(books, id, rec).value, id) == books
  {
  }

  /** Updating a record and then writing its old columns back gives back the table. */
  lemma UpdateThenRestore(books: Store, id: BookId, rec: Record)
    requires id in books
    ensures Update(Update(books, id, rec), id, books[id]) == books
  {
  }

  /**
   * `rows` is a listing of `books`: one row per record, each row showing its record
   * exactly, no key twice. No order is implied.
   */
  ghost predicate IsListing(rows: seq<Row>, books: Store)
  {
    && |rows| == |books|
    && (forall i :: 0 <= i < |rows| ==>
          rows[i].bookId in books && rows[i] == RowOf(rows[i].bookId, books[rows[i].bookId]))
    && (forall i, j :: 0 <= i < j < |rows| ==> rows[i].bookId != rows[j].bookId)
    && (forall id :: id in books ==> exists i :: 0 <= i < |rows| && rows[i].bookId == id)
  }

  /** A row picked from a listing is the stored record under that row's key. */
  lemma ListedRowIsStored(rows: seq<Row>, books: Store, row: Row)
    requires IsListing(rows, books)
    requires row in rows
    ensures row.bookId in books
    ensures books[row.bookId] == Record(row.title, row.author, row.status, row.issuerId)
  {
  }

  /** Every stored record appears in a listing as its own row, so it can be selected. */
  lemma ListingShowsEveryRecord(rows: seq<Row>, books: Store, id: BookId)
    requires IsListing(rows, books)
    requires id in books
    ensures RowOf(id, books[id]) in rows
  {
  }

  /**
   * `SELECT * FROM Books` followed by the loop that inserts each fetched row into
   * the tree view. The rows come in whatever order the table yields them.
   */
  method ListAll(books: Store) returns (rows: seq<Row>)
    ensures IsListing(rows, books)
  {
    rows := [];
    var pending := books.Keys;
    while pending != {}
      invariant pending <= books.Keys
      invariant |rows| + |pending| == |books|
      invariant forall i :: 0 <= i < |rows| ==>
        rows[i].bookId in books && rows[i].bookId !in pending &&
        rows[i] == RowOf(rows[i].bookId, books[rows[i].bookId])
      invariant forall i, j :: 0 <= i < j < |rows| ==> rows[i].bookId != rows[j].bookId
      invariant forall id :: id in books && id !in pending ==>
        exists i :: 0 <= i < |rows| && rows[i].bookId == id
      decreases |pending|
    {
      var id :| id in pending;
      ghost var before := rows;
      rows := rows + [RowOf(id, books[id])];
      pending := pending - {id};
      assert rows[|rows| - 1].bookId == id;
      forall k | k in books && k !in pending
        ensures exists i :: 0 <= i < |rows| && rows[i].bookId == k
      {
        if k != id {
          var i :| 0 <= i < |before| && before[i].bookId == k;
          assert rows[i] == before[i];
        }
      }
    }
  }
}
