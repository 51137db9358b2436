/** The book record service: create, read, list, update and delete over the
    repository's table. Each method is proved against a step function on
    the table value; the lemmas below state what those steps guarantee. */
module Services {
  import opened Wrappers
  import opened Platform
  import opened BookDtos
  import opened Entities
  import opened Repository

  /** `EntityNotFoundException(message)`, or a store failure passed through. */
  datatype ServiceError = NotFound(message: string) | Store(failure: StoreError)

  const NotFoundPrefix: string := "Book with id "
  const NotFoundSuffix: string := " not found."

  /** `"Book with id %d not found.".formatted(id)`. */
  function NotFoundMessage(id: Int64): (m: string)
    ensures |m| > |NotFoundPrefix| + |NotFoundSuffix|
    ensures m[..|NotFoundPrefix|] == NotFoundPrefix
    ensures m[|m| - |NotFoundSuffix|..] == NotFoundSuffix
    ensures IdInMessage(m) == Some(id)
  {
    var m := NotFoundPrefix + DecimalString(id) + NotFoundSuffix;
    assert m[|NotFoundPrefix|..|m| - |NotFoundSuffix|] == DecimalString(id);
    DecimalStringRoundTrip(id);
    m
  }

  /** Reads the id back out of a not-found message. */
  function IdInMessage(m: string): (id: Option<int>) {
    if |m| >= |NotFoundPrefix| + |NotFoundSuffix|
       && m[..|NotFoundPrefix|] == NotFoundPrefix
       && m[|m| - |NotFoundSuffix|..] == NotFoundSuffix
    then ParseDecimal(m[|NotFoundPrefix|..|m| - |NotFoundSuffix|])
    else None
  }

  /** The message names the id: its decimal form occurs in it, and the id
      can be read back, so different ids give different messages. */
  lemma NotFoundMessageNamesId(id: Int64)
    ensures Contains(NotFoundMessage(id), DecimalString(id))
    ensures IdInMessage(NotFoundMessage(id)) == Some(id)
  {
    var m := NotFoundMessage(id);
    var d := DecimalString(id);
    assert OccursAt(m, d, |NotFoundPrefix|);
    assert m[..|NotFoundPrefix|] == NotFoundPrefix;
    assert m[|m| - |NotFoundSuffix|..] == NotFoundSuffix;
    assert m[|NotFoundPrefix|..|m| - |NotFoundSuffix|] == d;
    DecimalStringRoundTrip(id);
  }

  /** `toBookDto`: the three columns, the id dropped. */
  function ToBookDto(row: BookRow): (d: BookDto)
    ensures RowOf(d) == row
  {
    BookDto(row.title, row.author, row.year)
  }

  /** `toBookDto` inverts `Book.of`: a DTO survives the trip into an entity
      and back, whatever id the entity got in between. */
  lemma ToBookDtoInvertsOf(d: BookDto)
    ensures ToBookDto(RowOf(d)) == d
  {
  }

  // ---------------------------------------------------------------------
  // The service's operations as steps on the table value.
  // ---------------------------------------------------------------------

  /** `save(dto)`: persist `Book.of(dto)` and return its DTO. */
  function SaveStep(t: Table, request: BookDto): (step: (Table, Result<BookDto, ServiceError>)) {
    var (t', res) := Persist(t, None, RowOf(request));
    (t', if res.Success? then Success(ToBookDto(RowOf(request))) else Failure(Store(res.error)))
  }

  /** `getById(id)`. */
  function GetByIdView(t: Table, id: Int64): (r: Result<BookDto, ServiceError>) {
    match Lookup(t, id)
    case Some(row) => Success(ToBookDto(row))
    case None => Failure(NotFound(NotFoundMessage(id)))
  }

  /** `getBookList()`. */
  function BookListView(t: Table): (list: seq<BookDto>)
    requires WellFormed(t)
  {
    var rs := Listing(t);
    seq(|rs|, i requires 0 <= i < |rs| => ToBookDto(rs[i].row))
  }

  /** `updateBook(id, dto)`: overwrite the three columns of the row under
      `id` (null included) and save it. */
  function UpdateStep(t: Table, id: Int64, request: BookDto): (step: (Table, Result<BookDto, ServiceError>)) {
    if id !in t.rows then (t, Failure(NotFound(NotFoundMessage(id))))
    else
      var (t', res) := Persist(t, Some(id), RowOf(request));
      (t', if res.Success? then Success(ToBookDto(RowOf(request))) else Failure(Store(res.error)))
  }

  /** `deleteById(id)`. */
  function DeleteStep(t: Table, id: Int64): (step: (Table, Result<(), ServiceError>)) {
    if id !in t.rows then (t, Failure(NotFound(NotFoundMessage(id))))
    else (Remove(t, id), Success(()))
  }

  // ---------------------------------------------------------------------
  // What the steps guarantee.
  // ---------------------------------------------------------------------

  /** Every step keeps the table's invariant: unique ids never reissued and
      no row with a null title or author. */
  lemma StepsKeepWellFormed(t: Table, id: Int64, request: BookDto)
    requires WellFormed(t)
    ensures WellFormed(SaveStep(t, request).0)
    ensures WellFormed(UpdateStep(t, id, request).0)
    ensures WellFormed(DeleteStep(t, id).0)
  {
    PersistKeepsWellFormed(t, None, RowOf(request));
    if id in t.rows {
      PersistKeepsWellFormed(t, Some(id), RowOf(request));
      RemoveKeepsWellFormed(t, id);
    }
  }

  /** Saving a valid DTO inserts exactly one row, under an id not in the
      table before, holding the DTO's title, author and year; the reply
      equals the request, the row is found under its id, and the list
      grows by the request at its end. */
  lemma SaveInsertsOneRow(t: Table, request: BookDto)
    requires WellFormed(t) && IsValid(request) && t.nextId <= MaxInt64
    ensures var (t', r) := SaveStep(t, request);
      && r == Success(request)
      && t.nextId !in t.rows
      && t'.rows == t.rows[t.nextId := RowOf(request)]
      && |t'.rows| == |t.rows| + 1
      && GetByIdView(t', t.nextId) == Success(request)
      && WellFormed(t')
      && BookListView(t') == BookListView(t) + [request]
  {
    EntityConstraintsMatchDto(request);
    InsertAddsOneRow(t, RowOf(request));
    var t' := SaveStep(t, request).0;
    assert |BookListView(t')| == |BookListView(t)| + 1;
    forall i | 0 <= i < |BookListView(t')|
      ensures BookListView(t')[i] == (BookListView(t) + [request])[i]
    {
      if i == |BookListView(t)| {
        ToBookDtoInvertsOf(request);
      }
    }
  }

  /** Saving a DTO with a null title or author is refused by the entity's
      constraints, with the DTO's violations, and nothing is written. */
  lemma SaveRejectsNullFields(t: Table, request: BookDto)
    requires !IsValid(request)
    ensures SaveStep(t, request) == (t, Failure(Store(ConstraintViolation(BookDtos.Violations(request)))))
  {
    EntityConstraintsMatchDto(request);
  }

  /** `getById` succeeds exactly on a stored id, with that row's DTO; on an
      absent id it fails with a NotFound whose message names the id. */
  lemma GetByIdFoundIffStored(t: Table, id: Int64)
    ensures GetByIdView(t, id).Success? <==> id in t.rows
    ensures id in t.rows ==> GetByIdView(t, id) == Success(ToBookDto(t.rows[id]))
    ensures id !in t.rows ==>
              && GetByIdView(t, id).error.NotFound?
              && Contains(GetByIdView(t, id).error.message, DecimalString(id))
              && IdInMessage(GetByIdView(t, id).error.message) == Some(id)
  {
    NotFoundMessageNamesId(id);
  }

  /** The list has one DTO per stored row, in listing order, each the DTO of
      the row at the same position. */
  lemma BookListFollowsListing(t: Table)
    requires WellFormed(t)
    ensures |BookListView(t)| == |t.order| == |t.rows|
    ensures forall i :: 0 <= i < |t.order| ==>
              BookListView(t)[i] == ToBookDto(t.rows[t.order[i]]) &&
              GetByIdView(t, t.order[i]) == Success(BookListView(t)[i])
  {
    OrderCoversRows(t);
  }

  /** `order` lists each stored id once, so it is as long as the table. */
  lemma OrderCoversRows(t: Table)
    requires WellFormed(t)
    ensures |t.order| == |t.rows|
  {
    DistinctElementsCount(t.order);
    assert (set i | 0 <= i < |t.order| :: t.order[i]) == t.rows.Keys;
  }

  /** A duplicate-free sequence has as many distinct elements as entries. */
  lemma {:induction false} DistinctElementsCount(s: seq<Int64>)
    requires NoDuplicates(s)
    ensures |set i | 0 <= i < |s| :: s[i]| == |s|
  {
    if s != [] {
      var last := |s| - 1;
      assert NoDuplicates(s[..last]);
      DistinctElementsCount(s[..last]);
      var front := set i | 0 <= i < last :: s[..last][i];
      assert (set i | 0 <= i < |s| :: s[i]) == front + {s[last]};
      assert s[last] !in front;
    }
  }

  /** Updating a stored id with a valid DTO overwrites that row's title,
      author and year, keeps its id and every other row, and replies with
      the request; a subsequent `getById` shows the new values. */
  lemma UpdateOverwritesOneRow(t: Table, id: Int64, request: BookDto)
    requires WellFormed(t) && id in t.rows && IsValid(request)
    ensures var (t', r) := UpdateStep(t, id, request);
      && r == Success(request)
      && t'.rows.Keys == t.rows.Keys
      && t'.rows[id] == RowOf(request)
      && (forall k :: k in t.rows && k != id ==> t'.rows[k] == t.rows[k])
      && t'.order == t.order
      && GetByIdView(t', id) == Success(request)
  {
    EntityConstraintsMatchDto(request);
    OverwriteReplacesOneRow(t, id, RowOf(request));
  }

  /** The update path has no null check: a null title or author reaches
      the entity, and the store's constraint check refuses it, so the
      table is unchanged and the failure carries the violations. */
  lemma UpdateWithNullFieldRefusedByStore(t: Table, id: Int64, request: BookDto)
    requires id in t.rows && !IsValid(request)
    ensures UpdateStep(t, id, request) == (t, Failure(Store(ConstraintViolation(BookDtos.Violations(request)))))
  {
    EntityConstraintsMatchDto(request);
  }

  /** Update and delete of an absent id fail with NotFound naming the id
      and leave the table unchanged. */
  lemma AbsentIdIsNotFound(t: Table, id: Int64, request: BookDto)
    requires id !in t.rows
    ensures UpdateStep(t, id, request) == (t, Failure(NotFound(NotFoundMessage(id))))
    ensures DeleteStep(t, id) == (t, Failure(NotFound(NotFoundMessage(id))))
    ensures IdInMessage(NotFoundMessage(id)) == Some(id)
  {
    NotFoundMessageNamesId(id);
  }

  /** Deleting a stored id removes exactly that row; `getById` on it then
      fails, and the list is one shorter. */
  lemma DeleteRemovesOneRow(t: Table, id: Int64)
    requires WellFormed(t) && id in t.rows
    ensures var (t', r) := DeleteStep(t, id);
      && r == Success(())
      && t'.rows == t.rows - {id}
      && |t'.rows| == |t.rows| - 1
      && GetByIdView(t', id) == Failure(NotFound(NotFoundMessage(id)))
      && WellFormed(t')
      && |BookListView(t')| == |BookListView(t)| - 1
  {
    RemoveDeletesOneRow(t, id);
  }

  /** A deleted id is never handed out again: after deleting it and saving
      any DTO, no row is stored under it. */
  lemma DeleteThenSaveUsesNewId(t: Table, id: Int64, request: BookDto)
    requires WellFormed(t) && id in t.rows
    ensures var t1 := DeleteStep(t, id).0;
      var t2 := SaveStep(t1, request).0;
      id !in t2.rows && |t2.rows| <= |t.rows|
  {
    RemoveDeletesOneRow(t, id);
    var t1 := DeleteStep(t, id).0;
    InsertAddsOneRow(t1, RowOf(request));
  }

  class BookService {
    const repository: BookRepository

    ghost predicate Valid()
      reads repository
    {
      repository.Valid()
    }

    constructor (repository: BookRepository)
      ensures this.repository == repository
    {
      this.repository := repository;
    }

    /** `toBook`: `Book.of`. */
    static method ToBook(request: BookDto) returns (b: Book)
      ensures fresh(b)
      ensures b.id == None && b.Row() == RowOf(request)
    {
      b := Book.Of(request);
    }

    method Save(request: BookDto) returns (r: Result<BookDto, ServiceError>)
      requires Valid()
      modifies repository
      ensures Valid()
      ensures (repository.table, r) == SaveStep(old(repository.table), request)
    {
      var newBook := ToBook(request);
      var saved := repository.Save(newBook);
      match saved
      case Success(b) =>
        r := Success(ToBookDto(b.Row()));
      case Failure(e) =>
        r := Failure(Store(e));
    }

    method GetById(id: Int64) returns (r: Result<BookDto, ServiceError>)
      ensures r == GetByIdView(repository.table, id)
    {
      var found := repository.FindById(id);
      match found
      case Some(b) =>
        r := Success(ToBookDto(b.Row()));
      case None =>
        r := Failure(NotFound(NotFoundMessage(id)));
    }

    method GetBookList() returns (list: seq<BookDto>)
      requires Valid()
      ensures list == BookListView(repository.table)
    {
      var books := repository.FindAll();
      list := seq(|books|, i requires 0 <= i < |books| reads set j | 0 <= j < |books| :: books[j] => ToBookDto(books[i].Row()));
    }

    /** The fetched entity is changed in place through its setters and then
        saved; a null in the request goes through to the entity. */
    method UpdateBook(id: Int64, request: BookDto) returns (r: Result<BookDto, ServiceError>)
      requires Valid()
      modifies repository
      ensures Valid()
      ensures (repository.table, r) == UpdateStep(old(repository.table), id, request)
    {
      var found := repository.FindById(id);
      if found.None? {
        r := Failure(NotFound(NotFoundMessage(id)));
        return;
      }
      var bookToUpdate := found.value;
      bookToUpdate.SetTitle(request.title);
      bookToUpdate.SetAuthor(request.author);
      bookToUpdate.SetYear(request.year);
      var updated := repository.Save(bookToUpdate);
      match updated
      case Success(b) =>
        r := Success(ToBookDto(b.Row()));
      case Failure(e) =>
        r := Failure(Store(e));
    }

    /** Deletes by the id of the fetched entity. */
    method DeleteById(id: Int64) returns (r: Result<(), ServiceError>)
      requires Valid()
      modifies repository
      ensures Valid()
      ensures (repository.table, r) == DeleteStep(old(repository.table), id)
    {
      var found := repository.FindById(id);
      if found.None? {
        r := Failure(NotFound(NotFoundMessage(id)));
        return;
      }
      var bookId := found.value.GetId();
      repository.DeleteById(bookId.value);
      r := Success(());
    }
  }
}
