/** The book table behind `BookRepository` (a Spring Data JPA repository
    whose implementation is not part of this model). It is modelled as a
    keyed table with an identity counter: `save` inserts a new entity under
    the next identity value or overwrites the row of an entity that has an
    id, `findById` and `findAll` read, `deleteById` removes a row. `findAll`
    returns rows in insertion order. The entity's `@NotNull` constraints are
    checked when an entity is saved, before any row is written. */
module Repository {
  import opened Wrappers
  import opened Platform
  import opened Entities

  /** One row as `findAll` returns it: the id and the columns. */
  datatype Record = Record(id: Int64, row: BookRow)

  /** The table's rows by id, the ids in the order `findAll` lists them,
      and the next value of the identity column. */
  datatype Table = Table(rows: map<Int64, BookRow>, order: seq<Int64>, nextId: nat)

  /** Why a save can fail inside the store; such failures reach the caller
      unchanged. */
  datatype StoreError =
    | ConstraintViolation(violations: set<Violation>)  // the entity's @NotNull
    | IdentityExhausted                                  // no `long` id is left

  const EmptyTable: Table := Table(map[], [], 1)

  predicate NoDuplicates(s: seq<Int64>) {
    forall i, j :: 0 <= i < j < |s| ==> s[i] != s[j]
  }

  /** The table's invariant: ids are unique, positive and below the next
      identity value (so never handed out again), `order` lists each row
      exactly once, and every stored row satisfies the entity constraints. */
  ghost predicate WellFormed(t: Table) {
    && 1 <= t.nextId
    && (forall id :: id in t.rows ==> 1 <= id < t.nextId && Persistable(t.rows[id]))
    && NoDuplicates(t.order)
    && (forall i :: 0 <= i < |t.order| ==> t.order[i] in t.rows)
    && (forall id :: id in t.rows ==> id in t.order)
  }

  lemma EmptyTableWellFormed()
    ensures WellFormed(EmptyTable)
  {
  }

  /** `findById`: the row stored under `id`, if any. */
  function Lookup(t: Table, id: Int64): (r: Option<BookRow>)
    ensures r.Some? <==> id in t.rows
    ensures r.Some? ==> r.value == t.rows[id]
  {
    if id in t.rows then Some(t.rows[id]) else None
  }

  /** `findAll`: every row, in insertion order. */
  function Listing(t: Table): (rs: seq<Record>)
    requires WellFormed(t)
  {
    seq(|t.order|, i requires 0 <= i < |t.order| => Record(t.order[i], t.rows[t.order[i]]))
  }

  /** `s` with every occurrence of `x` taken out, the rest in order. */
  function Without(s: seq<Int64>, x: Int64): (rest: seq<Int64>) {
    if s == [] then []
    else if s[0] == x then Without(s[1..], x)
    else [s[0]] + Without(s[1..], x)
  }

  lemma {:induction false} WithoutRemovesOnlyX(s: seq<Int64>, x: Int64)
    ensures forall y :: y in Without(s, x) <==> y in s && y != x
    ensures |Without(s, x)| <= |s|
  {
    if s != [] {
      WithoutRemovesOnlyX(s[1..], x);
    }
  }

  lemma {:induction false} WithoutKeepsUnique(s: seq<Int64>, x: Int64)
    requires NoDuplicates(s)
    ensures NoDuplicates(Without(s, x))
    ensures x in s ==> |Without(s, x)| == |s| - 1
    ensures x !in s ==> Without(s, x) == s
  {
    if s != [] {
      assert NoDuplicates(s[1..]);
      WithoutKeepsUnique(s[1..], x);
      WithoutRemovesOnlyX(s[1..], x);
      if s[0] != x {
        var w := [s[0]] + Without(s[1..], x);
        forall i, j | 0 <= i < j < |w| ensures w[i] != w[j] {
          if i == 0 {
            assert w[j] in Without(s[1..], x);
            assert s[0] !in s[1..];
          }
        }
      } else {
        assert x !in s[1..];
      }
    }
  }

  /** `deleteById`: the row under `id` is gone (nothing happens when there
      is none); the identity counter does not move back. */
  function Remove(t: Table, id: Int64): (t': Table)
    ensures id !in t'.rows
    ensures forall k :: k in t.rows && k != id ==> k in t'.rows && t'.rows[k] == t.rows[k]
    ensures forall k :: k in t'.rows ==> k in t.rows
    ensures forall k :: k in t'.order <==> k in t.order && k != id
    ensures t'.nextId == t.nextId
  {
    WithoutRemovesOnlyX(t.order, id);
    Table(t.rows - {id}, Without(t.order, id), t.nextId)
  }

  /** `save(entity)`: the entity's constraints are checked first; an entity
      without an id is inserted under the next identity value, one with an
      id overwrites the row with that id. Returns the id of the saved row. */
  function Persist(t: Table, id: Option<Int64>, row: BookRow): (r: (Table, Result<Int64, StoreError>))
    requires id.Some? ==> id.value in t.rows
    ensures r.1.Failure? ==> r.0 == t
    ensures !Persistable(row) ==> r.1 == Failure(ConstraintViolation(Violations(row)))
    ensures r.1.Success? <==> Persistable(row) && (id.Some? || t.nextId <= MaxInt64)
    ensures r.1.Success? ==> r.0.rows == t.rows[r.1.value := row] && r.0.nextId >= t.nextId
    ensures r.1.Success? && id.Some? ==> r.1.value == id.value && r.0.order == t.order
    ensures r.1.Success? && id.None? ==>
              r.1.value == t.nextId && r.0.order == t.order + [t.nextId] && r.0.nextId == t.nextId + 1
  {
    if !Persistable(row) then (t, Failure(ConstraintViolation(Violations(row))))
    else if id.Some? then (Table(t.rows[id.value := row], t.order, t.nextId), Success(id.value))
    else if t.nextId > MaxInt64 then (t, Failure(IdentityExhausted))
    else (Table(t.rows[t.nextId := row], t.order + [t.nextId], t.nextId + 1), Success(t.nextId))
  }

  lemma PersistKeepsWellFormed(t: Table, id: Option<Int64>, row: BookRow)
    requires WellFormed(t)
    requires id.Some? ==> id.value in t.rows
    ensures WellFormed(Persist(t, id, row).0)
  {
    var t' := Persist(t, id, row).0;
    if Persistable(row) && id.None? && t.nextId <= MaxInt64 {
      forall i, j | 0 <= i < j < |t'.order| ensures t'.order[i] != t'.order[j] {
        if j == |t.order| {
          assert t.order[i] in t.rows;
        }
      }
    }
  }

  /** Inserting a valid row adds exactly one row, under an id no row had,
      and appends it to the listing; a rejected row changes nothing. */
  lemma InsertAddsOneRow(t: Table, row: BookRow)
    requires WellFormed(t)
    ensures var (t', r) := Persist(t, None, row);
      && (!Persistable(row) ==> t' == t && r == Failure(ConstraintViolation(Violations(row))))
      && (Persistable(row) && t.nextId <= MaxInt64 ==>
            && r == Success(t.nextId)
            && t.nextId !in t.rows
            && t'.rows == t.rows[t.nextId := row]
            && |t'.rows| == |t.rows| + 1
            && WellFormed(t')
            && Listing(t') == Listing(t) + [Record(t.nextId, row)])
  {
    if Persistable(row) && t.nextId <= MaxInt64 {
      PersistKeepsWellFormed(t, None, row);
      InsertAppendsToListing(t, row);
    }
  }

  lemma InsertAppendsToListing(t: Table, row: BookRow)
    requires WellFormed(t) && Persistable(row) && t.nextId <= MaxInt64
    ensures var t' := Persist(t, None, row).0;
      && t.nextId !in t.rows
      && t'.rows == t.rows[t.nextId := row]
      && |t'.rows| == |t.rows| + 1
      && WellFormed(t')
      && Listing(t') == Listing(t) + [Record(t.nextId, row)]
  {
    PersistKeepsWellFormed(t, None, row);
    var t' := Persist(t, None, row).0;
    assert t.nextId !in t.rows;
    assert t'.rows.Keys == t.rows.Keys + {t.nextId};
    var l, l' := Listing(t), Listing(t');
    assert |l'| == |l| + 1;
    forall i | 0 <= i < |l'| ensures l'[i] == (l + [Record(t.nextId, row)])[i] {
      if i < |l| {
        assert t'.order[i] == t.order[i] && t.order[i] != t.nextId;
      }
    }
  }

  /** Overwriting keeps every id, the listing's order and all other rows. */
  lemma OverwriteReplacesOneRow(t: Table, id: Int64, row: BookRow)
    requires WellFormed(t) && id in t.rows && Persistable(row)
    ensures var (t', r) := Persist(t, Some(id), row);
      && r == Success(id)
      && t'.rows.Keys == t.rows.Keys
      && t'.rows[id] == row
      && (forall k :: k in t.rows && k != id ==> t'.rows[k] == t.rows[k])
      && t'.order == t.order
      && WellFormed(t')
  {
    PersistKeepsWellFormed(t, Some(id), row);
  }

  /** Deleting a present id removes exactly that row and shortens the
      listing by one; deleting an absent id changes nothing. */
  lemma RemoveDeletesOneRow(t: Table, id: Int64)
    requires WellFormed(t)
    ensures WellFormed(Remove(t, id))
    ensures Remove(t, id).rows == t.rows - {id}
    ensures id in t.rows ==> |Remove(t, id).rows| == |t.rows| - 1
    ensures id in t.rows ==> |Listing(Remove(t, id))| == |Listing(t)| - 1
    ensures id !in t.rows ==> Remove(t, id) == t
  {
    RemoveKeepsWellFormed(t, id);
    if id in t.rows {
      RemovePresentShrinks(t, id);
    } else {
      RemoveAbsentIsIdentity(t, id);
    }
  }

  lemma RemovePresentShrinks(t: Table, id: Int64)
    requires WellFormed(t) && id in t.rows
    ensures |Remove(t, id).rows| == |t.rows| - 1
    ensures |Remove(t, id).order| == |t.order| - 1
  {
    assert id in t.order;
    WithoutKeepsUnique(t.order, id);
    MapRemoveOneSize(t.rows, id);
  }

  lemma RemoveAbsentIsIdentity(t: Table, id: Int64)
    requires WellFormed(t) && id !in t.rows
    ensures Remove(t, id) == t
  {
    assert id !in t.order;
    WithoutKeepsUnique(t.order, id);
    assert t.rows - {id} == t.rows;
  }

  lemma MapRemoveOneSize(m: map<Int64, BookRow>, k: Int64)
    requires k in m
    ensures |m - {k}| == |m| - 1
  {
    assert (m - {k}).Keys + {k} == m.Keys;
  }

  lemma RemoveKeepsWellFormed(t: Table, id: Int64)
    requires WellFormed(t)
    ensures WellFormed(Remove(t, id))
  {
    WithoutRemovesOnlyX(t.order, id);
    WithoutKeepsUnique(t.order, id);
    var t' := Remove(t, id);
    forall i | 0 <= i < |t'.order| ensures t'.order[i] in t'.rows {
      assert t'.order[i] in Without(t.order, id);
    }
    forall k | k in t'.rows ensures k in t'.order {
      assert k in t.order && k != id;
    }
  }

  class BookRepository {
    var table: Table

    ghost predicate Valid()
      reads this
    {
      WellFormed(table)
    }

    constructor ()
      ensures Valid() && table == EmptyTable
    {
      table := EmptyTable;
      EmptyTableWellFormed();
    }

    /** `save`: on success returns the same entity, now with its id. */
    method Save(b: Book) returns (r: Result<Book, StoreError>)
      requires Valid()
      requires b.id.Some? ==> b.id.value in table.rows
      modifies this, b`id
      ensures Valid()
      ensures var (t', res) := Persist(old(table), old(b.id), old(b.Row()));
        && table == t'
        && (res.Success? ==> r == Success(b) && b.id == Some(res.value))
        && (res.Failure? ==> r == Failure(res.error) && b.id == old(b.id))
    {
      PersistKeepsWellFormed(table, b.id, b.Row());
      var (t', res) := Persist(table, b.id, b.Row());
      table := t';
      match res
      case Failure(e) =>
        r := Failure(e);
      case Success(id) =>
        b.SetId(Some(id));
        r := Success(b);
    }

    /** `findById`: a fresh entity loaded from the row, or empty. */
    method FindById(id: Int64) returns (r: Option<Book>)
      ensures r.Some? <==> id in table.rows
      ensures r.Some? ==> fresh(r.value) && r.value.id == Some(id) && r.value.Row() == table.rows[id]
    {
      match Lookup(table, id)
      case None =>
        r := None;
      case Some(row) =>
        var b := new Book(row.title, row.author, row.year);
        b.SetId(Some(id));
        r := Some(b);
    }

    /** `findAll`: one fresh entity per row, in listing order. */
    method FindAll() returns (books: seq<Book>)
      requires Valid()
      ensures |books| == |Listing(table)|
      ensures forall i :: 0 <= i < |books| ==>
                fresh(books[i]) &&
                books[i].id == Some(Listing(table)[i].id) &&
                books[i].Row() == Listing(table)[i].row
    {
      var listing := Listing(table);
      books := [];
      for i := 0 to |listing|
        invariant |books| == i
        invariant forall j :: 0 <= j < i ==>
                    fresh(books[j]) &&
                    books[j].id == Some(listing[j].id) &&
                    books[j].Row() == listing[j].row
      {
        var row := listing[i].row;
        var b := new Book(row.title, row.author, row.year);
        b.SetId(Some(listing[i].id));
        books := books + [b];
      }
    }

    /** `deleteById`. */
    method DeleteById(id: Int64)
      requires Valid()
      modifies this
      ensures Valid()
      ensures table == Remove(old(table), id)
    {
      RemoveDeletesOneRow(table, id);
      table := Remove(table, id);
    }
  }
}
