# Book record service, modelled in Dafny

This project models the core of a small book-record service. `BookService` creates, reads, lists, updates and deletes book records. A record travels in two shapes:

- **`Book`** is the persisted entity. It is mutable, and the store assigns its id on insert.
- **`BookDto`** is the immutable transfer object, with no id. Its title and author must be non-null.

The store behind the service is a Spring Data JPA `BookRepository`, which is not part of this model. It is replaced by an abstract keyed table with an identity counter. The model states that replacement as an assumption:

- `save` first checks the entity's `@NotNull` constraints.
- It then inserts an entity without an id under the next identity value, or overwrites the row of an entity that has one.
- `findById` and `findAll` read the table. `findAll` lists rows in insertion order.
- `deleteById` removes one row.
- Identity values are never handed out twice.

Modules, one per source file plus two of support:

| file | module | models |
|---|---|---|
| `wrappers.dfy` | `Wrappers` | `Option` stands for Java `null` / `Optional`. `Result` stands for a thrown exception. |
| `platform.dfy` | `Platform` | Java `int`/`long` ranges, the decimal text `%d` writes and its parser, and `Contains`. Also jakarta.validation's `@NotNull` as a set of violations. |
| `book_dto.dfy` | `BookDtos` | The `BookDto` record, its violations and `@Valid`. |
| `book.dfy` | `Entities` | The `Book` class (fields, constructors, `of`, getters, setters). Its column values `BookRow`. Its `@NotNull` constraints. |
| `book_repository.dfy` | `Repository` | The abstract table (`Table`, `WellFormed`, `Persist`, `Remove`, `Listing`) and the `BookRepository` class over it. |
| `book_service.dfy` | `Services` | The `BookService` class. Each method is proved equal to a step function on the table (`SaveStep`, `GetByIdView`, `BookListView`, `UpdateStep`, `DeleteStep`), and lemmas state what those steps guarantee. |

Java `null` for title, author and the entity id is `None`. `year` is a Java `int` (`Int32`) and ids are `long` (`Int64`). `EntityNotFoundException` is `ServiceError.NotFound(message)`. A store failure reaches the caller unchanged as `ServiceError.Store(...)`.

**A null title or author on update.** `updateBook` has no null check, and the controller's PUT omits `@Valid` (src/main/java/com/abc/controllers/BookController.java:42). So a null in the request reaches the fetched entity, and its setters overwrite the field in place. The entity declares `@NotNull` on both columns (src/main/java/com/abc/db/entities/Book.java:13-16), and the store checks those constraints when the entity is saved. The save is therefore refused with a constraint violation, and the row stays as it was (`UpdateWithNullFieldRefusedByStore`). The same check guards `save` when the service is called without the controller's validation, because the service's own `@Valid` parameter annotation has no effect without `@Validated` on the class.

## Model

| member | source | states |
|---|---|---|
| `BookDtos.Violations` | src/main/java/com/abc/dtos/BookDto.java:5-11 | A title violation ("Book title is required") is reported iff the title is null. An author violation ("Book author is required") is reported iff the author is null. Nothing else is ever reported. |
| `BookDtos.Validate` | src/main/java/com/abc/dtos/BookDto.java:6-9 | `@Valid` passes the DTO through unchanged iff title and author are both non-null. Otherwise it refuses the DTO with its non-empty set of violations. |
| `BookDtos.ValidIffTitleAndAuthorPresent` | src/main/java/com/abc/dtos/BookDto.java:6-9 | A DTO is valid exactly when its title and its author are non-null. |
| `BookDtos.YearUnconstrained` | src/main/java/com/abc/dtos/BookDto.java:10 | Changing the year to any `int` changes neither the violations nor the validity. |
| `BookDtos.NullTitleAndAuthorRejected` | src/test/java/com/abc/controllers/BookControllerTest.java:51-61 | The body with null title, null author and year 2015 is refused with both violations, before any service call. |
| `Entities.RowOf` | src/main/java/com/abc/db/entities/Book.java:28-30 | The columns `Book.of` fills in are the DTO's title, author and year. |
| `Entities.Violations` | src/main/java/com/abc/db/entities/Book.java:13-16 | The entity's constraints report nothing iff title and author are both non-null. This is the corrected definition, with the title message naming the title. |
| `Entities.ViolationsAsWritten` | src/main/java/com/abc/db/entities/Book.java:13-16 | The entity's constraints with the messages as the annotations spell them. A row is refused iff its title or author is null. A null title gives a `title` violation, and a null author an `author` violation. Every message reads "Book author is required". |
| `Entities.AsWrittenTitleMessageNamesAuthor` | src/main/java/com/abc/db/entities/Book.java:13-16 | For every DTO, the as-written entity report equals the DTO's report iff the title is present. A null title is reported with "Book author is required". The as-written report is empty iff the DTO is valid. |
| `Entities.AsWrittenDiffersOnlyInTitleMessage` | src/main/java/com/abc/db/entities/Book.java:13-16 | For every row, the as-written report is the corrected report with the title's violation carrying the author's message instead. Both refuse exactly the same rows. |
| `Entities.EntityConstraintsMatchDto` | src/main/java/com/abc/db/entities/Book.java:13-16 | Corrected, the entity's violations for `Book.of(dto)` are exactly the DTO's violations. So that entity is persistable iff the DTO is valid, and each message names its own column. |
| `Entities.Book.Empty` | src/main/java/com/abc/db/entities/Book.java:19-20 | The no-argument constructor leaves the id, title and author null and the year 0. |
| `Entities.Book.constructor` | src/main/java/com/abc/db/entities/Book.java:22-26 | A new entity has the given title, author and year, and a null id. |
| `Entities.Book.Of` | src/main/java/com/abc/db/entities/Book.java:28-30 | `Book.of(dto)` is a fresh entity with no id whose columns are the DTO's. |
| `Entities.Book.GetId` | src/main/java/com/abc/db/entities/Book.java:32-34 | Returns the current id. |
| `Entities.Book.SetId` | src/main/java/com/abc/db/entities/Book.java:36-38 | Writes the id and no other field. |
| `Entities.Book.GetTitle` | src/main/java/com/abc/db/entities/Book.java:40-42 | Returns the current title. |
| `Entities.Book.SetTitle` | src/main/java/com/abc/db/entities/Book.java:44-46 | Writes the title and no other field. |
| `Entities.Book.GetAuthor` | src/main/java/com/abc/db/entities/Book.java:48-50 | Returns the current author. |
| `Entities.Book.SetAuthor` | src/main/java/com/abc/db/entities/Book.java:52-54 | Writes the author and no other field. |
| `Entities.Book.GetYear` | src/main/java/com/abc/db/entities/Book.java:56-58 | Returns the current year. |
| `Entities.Book.SetYear` | src/main/java/com/abc/db/entities/Book.java:60-62 | Writes the year and no other field. |
| `Repository.Lookup` | src/main/java/com/abc/services/BookService.java:28 | `findById` finds a row iff the id is stored, and then returns exactly the row stored under it. |
| `Repository.Persist` | src/main/java/com/abc/services/BookService.java:23-44 | `save` refuses a row with a null title or author, and changes nothing then. An entity with an id overwrites that row and keeps the order. An entity without an id is stored under the counter's value, appended to the order, and the counter advances. If no `long` id is left, the save fails and nothing changes. |
| `Repository.Remove` | src/main/java/com/abc/services/BookService.java:51 | `deleteById` takes the id out of the table and the order. Every other row and the identity counter are kept. |
| `Repository.PersistKeepsWellFormed` | src/main/java/com/abc/db/entities/Book.java:10-16 | Saving keeps the table's invariant. Ids stay unique, positive and below the identity counter, the listing holds each row once, and no stored row has a null title or author. |
| `Repository.InsertAddsOneRow` | src/main/java/com/abc/db/entities/Book.java:10-12 | Saving an entity without an id adds exactly one row under the counter's value, which no row had before. The listing gains that row at its end. A row with a null column is refused and changes nothing. The violations carry the corrected messages (see Findings). |
| `Repository.OverwriteReplacesOneRow` | src/main/java/com/abc/services/BookService.java:44 | Saving an entity with an id overwrites that row only. The set of ids, the listing order and every other row stay as they were. |
| `Repository.RemoveKeepsWellFormed` | src/main/java/com/abc/services/BookService.java:51 | Deleting keeps the table's invariant. |
| `Repository.RemoveDeletesOneRow` | src/main/java/com/abc/services/BookService.java:51 | Deleting a present id removes exactly that row, and the listing is one shorter. Deleting an absent id changes nothing. |
| `Repository.BookRepository.Save` | src/main/java/com/abc/services/BookService.java:23 | The table becomes `Persist` of the old table. On success the same entity is returned, and it carries the assigned id. On failure its id is untouched. |
| `Repository.BookRepository.FindById` | src/main/java/com/abc/services/BookService.java:28 | Returns a value iff the id is stored. That value is a fresh entity with the id and the stored columns. |
| `Repository.BookRepository.FindAll` | src/main/java/com/abc/services/BookService.java:34 | Returns one fresh entity per row, in listing order, each with that row's id and columns. |
| `Repository.BookRepository.DeleteById` | src/main/java/com/abc/services/BookService.java:51 | The table becomes `Remove` of the old table. |
| `Platform.DecimalStringRoundTrip` | src/main/java/com/abc/services/BookService.java:30 | The `%d` text of an id parses back to that id. |
| `Services.NotFoundMessage` | src/main/java/com/abc/services/BookService.java:30 | The message is "Book with id ", then the id's `%d` text, then " not found.". The id can be read back from it. |
| `Services.NotFoundMessageNamesId` | src/main/java/com/abc/services/BookService.java:30 | The not-found message contains the id's decimal text, and the id can be read back from the message. So distinct ids give distinct messages. |
| `Services.ToBookDto` | src/main/java/com/abc/services/BookService.java:59-61 | The DTO of a row carries back the row's three columns (`Book.of` of it is the row), and the id is dropped. |
| `Services.ToBookDtoInvertsOf` | src/main/java/com/abc/services/BookService.java:55-61 | `toBookDto` after `toBook` gives back the DTO unchanged. |
| `Services.StepsKeepWellFormed` | src/main/java/com/abc/services/BookService.java:21-52 | Save, update and delete each keep the table's invariant. |
| `Services.SaveInsertsOneRow` | src/main/java/com/abc/services/BookService.java:21-25 | Saving a valid DTO inserts exactly one row under an id not stored before, with the DTO's title, author and year. It replies with the request, `getById` on the new id returns the request, and the list gains the request at its end. |
| `Services.SaveRejectsNullFields` | src/main/java/com/abc/services/BookService.java:21-25 | Saving a DTO with a null title or author is refused by the entity's constraints and writes nothing. The failure carries the DTO's violations, which are the entity's corrected messages (see Findings). |
| `Services.GetByIdFoundIffStored` | src/main/java/com/abc/services/BookService.java:27-31 | `getById` succeeds iff the id is stored, and then returns that row's DTO. Otherwise it fails with NotFound, and the message contains the id and reads back as it. |
| `Services.BookListFollowsListing` | src/main/java/com/abc/services/BookService.java:33-35 | The list has one DTO per stored row, in the store's order. Each entry is the DTO of the row at that position, and equals what `getById` returns for that row's id. |
| `Services.UpdateOverwritesOneRow` | src/main/java/com/abc/services/BookService.java:37-46 | Updating a stored id with a valid DTO overwrites title, author and year of that row only. The id set, the order and every other row are unchanged. It replies with the request, and `getById` then shows the new values. |
| `Services.UpdateWithNullFieldRefusedByStore` | src/main/java/com/abc/services/BookService.java:40-44 | An update with a null title or author is refused by the entity's constraints and leaves the table unchanged. The failure carries the corrected messages (see Findings). |
| `Services.AbsentIdIsNotFound` | src/main/java/com/abc/services/BookService.java:37-50 | Update and delete of an absent id fail with NotFound naming the id. The table is unchanged, so nothing is saved or deleted. |
| `Services.DeleteRemovesOneRow` | src/main/java/com/abc/services/BookService.java:48-52 | Deleting a stored id removes exactly that row. `getById` on it then fails with NotFound, and the list is one shorter. |
| `Services.DeleteThenSaveUsesNewId` | src/main/java/com/abc/db/entities/Book.java:10-12 | After deleting an id and saving any DTO, no row is stored under the deleted id: ids are not reused. |
| `Services.BookService.constructor` | src/main/java/com/abc/services/BookService.java:17-19 | The service keeps the repository it is given. |
| `Services.BookService.ToBook` | src/main/java/com/abc/services/BookService.java:55-57 | `toBook` is `Book.of`: a fresh entity without an id, holding the request's columns. |
| `Services.BookService.Save` | src/main/java/com/abc/services/BookService.java:21-25 | The new table and the reply are `SaveStep` of the old table and the request. |
| `Services.BookService.GetById` | src/main/java/com/abc/services/BookService.java:27-31 | The reply is `GetByIdView` of the table, and nothing changes. |
| `Services.BookService.GetBookList` | src/main/java/com/abc/services/BookService.java:33-35 | The reply is `BookListView` of the table, and nothing changes. |
| `Services.BookService.UpdateBook` | src/main/java/com/abc/services/BookService.java:37-46 | Changes the fetched entity in place through its three setters and saves it. The new table and the reply are `UpdateStep` of the old table, the id and the request. |
| `Services.BookService.DeleteById` | src/main/java/com/abc/services/BookService.java:48-52 | Deletes by the fetched entity's id. The new table and the reply are `DeleteStep` of the old table and the id. |

## Left out

- The Spring Data JPA repository and PostgreSQL are replaced by the abstract table described above. Among store failures, only the constraint check and exhaustion of the `long` identity range are modelled. Connectivity and other database errors are not.
- `findAll`'s order is taken as insertion order, and an update keeps a row's position. A real database returns rows without `ORDER BY` in no promised order.
- The HTTP layer (routing, JSON, status codes 201/200/204/404/400) is not modelled. The one point kept from it is the `@Valid` check on a request body (`BookDtos.Validate`), which PUT does not apply.
- Security configuration (HTTP Basic, the in-memory user) is not modelled. It is framework wiring with no logic of its own.
- Concurrency is not modelled: the check-then-act race between `findById` and `save`/`deleteById` is outside a sequential model.
- A null `Long` id argument is not modelled. Ids are non-null `long` values, as the controller's path variables always are.
- `%d` formatting is modelled with ASCII digits. A default locale with other digit characters is not modelled.
- JPA's persistence context is not modelled. Each `findById`/`findAll` returns fresh detached entities, and `save` returns the entity it was given rather than a managed copy.

- Repository.Persist: a refused row carries the corrected violations. As written, a null title is reported as ("title", "Book author is required"). `Entities.AsWrittenDiffersOnlyInTitleMessage` gives the as-written report for every row. Which rows are refused is the same either way.
- Repository.InsertAddsOneRow: states the refusal with the corrected violations, for the reason given under Repository.Persist.
- Services.SaveRejectsNullFields: the failure carries the corrected violations. As written, a null title's message is "Book author is required" (see Repository.Persist).
- Services.UpdateWithNullFieldRefusedByStore: the failure carries the corrected violations. As written, a null title's message is "Book author is required" (see Repository.Persist).

## Findings

| source | as written | input that shows it | evidently intended | confidence | as-written member | corrected member |
|---|---|---|---|---|---|---|
| src/main/java/com/abc/db/entities/Book.java:13 | The `@NotNull` on `title` carries the message "Book author is required". | A `Book` with a null title and the author "Author" is reported as "Book author is required". | "Book title is required", as in src/main/java/com/abc/dtos/BookDto.java:6. | high; not executed | `Entities.AsWrittenTitleMessageNamesAuthor` | `Entities.EntityConstraintsMatchDto` |
