/** The wire-facing book record: title, author and year, without an id.
    A Java record is immutable, so it is a datatype; `null` for title or
    author is `None`. */
module BookDtos {
  import opened Wrappers
  import opened Platform

  datatype BookDto = BookDto(title: Option<string>, author: Option<string>, year: Int32)

  const TitleRequired: string := "Book title is required"
  const AuthorRequired: string := "Book author is required"

  /** The violations bean validation reports for a BookDto: one per
      `@NotNull` field that is null; `year` carries no constraint. */
  function Violations(d: BookDto): (vs: set<Violation>)
    ensures Violation("title", TitleRequired) in vs <==> d.title.None?
    ensures Violation("author", AuthorRequired) in vs <==> d.author.None?
    ensures forall v :: v in vs ==>
              v == Violation("title", TitleRequired) || v == Violation("author", AuthorRequired)
  {
    NotNull("title", d.title, TitleRequired) + NotNull("author", d.author, AuthorRequired)
  }

  /** A DTO passes `@Valid` when it has no violation. */
  predicate IsValid(d: BookDto) {
    Violations(d) == {}
  }

  /** What `@Valid` on a request body does before the handler runs: the
      DTO goes through unchanged, or the request is refused with its
      violations. */
  function Validate(d: BookDto): (r: Result<BookDto, set<Violation>>)
    ensures r.Success? <==> d.title.Some? && d.author.Some?
    ensures r.Success? ==> r.value == d
    ensures r.Failure? ==> r.error != {} && r.error == Violations(d)
  {
    if IsValid(d) then Success(d) else Failure(Violations(d))
  }

  /** Validity is exactly "title and author are both non-null". */
  lemma ValidIffTitleAndAuthorPresent(d: BookDto)
    ensures IsValid(d) <==> d.title.Some? && d.author.Some?
  {
  }

  /** Any `int` year is acceptable: changing it never changes validity. */
  lemma YearUnconstrained(d: BookDto, year: Int32)
    ensures Violations(d.(year := year)) == Violations(d)
    ensures IsValid(d.(year := year)) <==> IsValid(d)
  {
  }

  /** The body `{"title": null, "author": null, "year": 2015}` is refused
      with both violations, so no service call happens. */
  lemma NullTitleAndAuthorRejected()
    ensures Validate(BookDto(None, None, 2015))
         == Failure({Violation("title", TitleRequired), Violation("author", AuthorRequired)})
  {
    var d := BookDto(None, None, 2015);
    assert NotNull("title", d.title, TitleRequired) == {Violation("title", TitleRequired)};
    assert NotNull("author", d.author, AuthorRequired) == {Violation("author", AuthorRequired)};
    assert Violation("title", TitleRequired) in Violations(d);
    assert !IsValid(d);
    assert Validate(d) == Failure(Violations(d));
    assert Violations(d) == {Violation("title", TitleRequired), Violation("author", AuthorRequired)};
  }
}
