/** The persisted book entity. Its fields are overwritten in place by
    setters and its id is written by the store on insert, so it is a class;
    BookRow is the value of its three columns, which is what the store
    keeps under the id. */
module Entities {
  import opened Wrappers
  import opened Platform
  import opened BookDtos

  /** The column values of one book, without its id. */
  datatype BookRow = BookRow(title: Option<string>, author: Option<string>, year: Int32)

  /** The columns `Book.of(dto)` fills in: title, author and year of the DTO. */
  function RowOf(dto: BookDto): (row: BookRow)
    ensures row.title == dto.title && row.author == dto.author && row.year == dto.year
  {
    BookRow(dto.title, dto.author, dto.year)
  }

  /** The message the entity's `@NotNull` on `title` carries in the code:
      it names the author, not the title. */
  const TitleMessageAsWritten: string := "Book author is required"

  /** The violations of the entity's two `@NotNull` constraints, with the
      messages exactly as the annotations spell them. */
  function ViolationsAsWritten(row: BookRow): (vs: set<Violation>)
    ensures vs == {} <==> row.title.Some? && row.author.Some?
    ensures Violation("title", TitleMessageAsWritten) in vs <==> row.title.None?
    ensures Violation("author", AuthorRequired) in vs <==> row.author.None?
    ensures forall v :: v in vs ==> v.message == AuthorRequired
  {
    NotNull("title", row.title, TitleMessageAsWritten) + NotNull("author", row.author, AuthorRequired)
  }

  /** The same constraints with the title message naming the title. This is
      the definition the store enforces below. */
  function Violations(row: BookRow): (vs: set<Violation>)
    ensures vs == {} <==> row.title.Some? && row.author.Some?
  {
    NotNull("title", row.title, TitleRequired) + NotNull("author", row.author, AuthorRequired)
  }

  /** A row the store accepts: no `@NotNull` column is null. */
  predicate Persistable(row: BookRow) {
    Violations(row) == {}
  }

  /** As written, the entity reports what the DTO reports exactly when the
      title is present: for a null title its violation carries the author's
      message, so every as-written message reads "Book author is required".
      Whether a row is refused does not depend on the message. */
  lemma AsWrittenTitleMessageNamesAuthor(d: BookDto)
    ensures ViolationsAsWritten(RowOf(d)) == BookDtos.Violations(d) <==> d.title.Some?
    ensures ViolationsAsWritten(RowOf(d)) == {} <==> IsValid(d)
    ensures d.title.None? ==> Violation("title", "Book author is required") in ViolationsAsWritten(RowOf(d))
  {
    if d.title.None? {
      assert Violation("title", TitleRequired) in BookDtos.Violations(d);
      assert Violation("title", TitleRequired) !in ViolationsAsWritten(RowOf(d));
    }
  }

  /** For every row the as-written report is the corrected one with the
      title's violation relabelled by the author's message, and both refuse
      exactly the same rows. */
  lemma AsWrittenDiffersOnlyInTitleMessage(row: BookRow)
    ensures ViolationsAsWritten(row)
         == (Violations(row) - {Violation("title", TitleRequired)})
            + (if row.title.None? then {Violation("title", TitleMessageAsWritten)} else {})
    ensures ViolationsAsWritten(row) == {} <==> Persistable(row)
  {
    assert Violation("title", TitleRequired) != Violation("author", AuthorRequired);
  }

  /** Corrected, every violation's message tells which column is missing,
      and the entity's constraints are exactly the DTO's: a row built from
      a DTO is persistable iff the DTO is valid, with the same violations. */
  lemma EntityConstraintsMatchDto(dto: BookDto)
    ensures Violations(RowOf(dto)) == BookDtos.Violations(dto)
    ensures Persistable(RowOf(dto)) <==> IsValid(dto)
    ensures forall v :: v in Violations(RowOf(dto)) ==>
              (v.property == "title" && v.message == TitleRequired) ||
              (v.property == "author" && v.message == AuthorRequired)
  {
  }

  class Book {
    /** Null until the store assigns one on insert. */
    var id: Option<Int64>
    var title: Option<string>
    var author: Option<string>
    var year: Int32

    /** The no-argument constructor JPA uses: every reference field null,
        `year` at Java's default 0. */
    constructor Empty()
      ensures id == None && title == None && author == None && year == 0
    {
      id := None;
      title := None;
      author := None;
      year := 0;
    }

    /** The caller supplies title, author and year, never the id. */
    constructor (title: Option<string>, author: Option<string>, year: Int32)
      ensures id == None
      ensures this.title == title && this.author == author && this.year == year
    {
      id := None;
      this.title := title;
      this.author := author;
      this.year := year;
    }

    /** `Book.of(dto)`: a fresh entity, no id yet, with the DTO's columns. */
    static method Of(dto: BookDto) returns (b: Book)
      ensures fresh(b)
      ensures b.id == None && b.Row() == RowOf(dto)
    {
      b := new Book(dto.title, dto.author, dto.year);
    }

    /** The entity's column values, without the id. */
    function Row(): (row: BookRow)
      reads this
    {
      BookRow(title, author, year)
    }

    method GetId() returns (r: Option<Int64>)
      ensures r == id
    {
      r := id;
    }

    method SetId(id: Option<Int64>)
      modifies this`id
      ensures this.id == id
    {
      this.id := id;
    }

    method GetTitle() returns (r: Option<string>)
      ensures r == title
    {
      r := title;
    }

    method SetTitle(title: Option<string>)
      modifies this`title
      ensures this.title == title
    {
      this.title := title;
    }

    method GetAuthor() returns (r: Option<string>)
      ensures r == author
    {
      r := author;
    }

    method SetAuthor(author: Option<string>)
      modifies this`author
      ensures this.author == author
    {
      this.author := author;
    }

    method GetYear() returns (r: Int32)
      ensures r == year
    {
      r := year;
    }

    method SetYear(year: Int32)
      modifies this`year
      ensures this.year == year
    {
      this.year := year;
    }
  }
}
