# Book service core, modelled in Dafny

This project models the core of a Spring Boot book catalogue service:

- the `Book` entity, with its validation constraints and its `update(BookDto)` method;
- the dynamic search specification: `SearchStatement`, `SearchOperation` and `SearchCriteria`, with its `add` and `toPredicate`;
- `BookRepository`, which turns four optional criteria into a statement list and fronts an abstract store;
- `BookServiceImpl`, which covers listing with filters, lookup and removal by a textual id, creation from a request, and the PUT-style update that copies only supplied fields.

Most of the logic turns on three distinctions: null versus empty versus blank strings, and trimming. The model makes each of them explicit:

- A nullable reference is an `Option`.
- `StringUtils.hasLength` is `JavaText.HasLength`: not null and not empty. A string of spaces has length.
- `String.trim` is `JavaText.Trim`: it strips characters at or below U+0020 from both ends.
- Bean Validation's `@NotBlank` is `BookModel.NotBlank`: the trimmed string is not empty.

Modules, one file each:

| file | module | models |
|---|---|---|
| `java_types.dfy` | `JavaTypes` | `Option`, `LocalDate` (an epoch day), `BigDecimal` (a real) |
| `java_text.dfy` | `JavaText` | `String.trim`, `StringUtils.hasLength`, ASCII `toLowerCase`, containment and prefix |
| `java_long.dfy` | `JavaLong` | `Long.parseLong` (radix 10): the contract, the JDK's digit loop, and `Long.toString` |
| `consts.dfy` | `Consts` | the key names of `Consts.java` |
| `search_types.dfy` | `SearchTypes` | `SearchOperation`, `SearchStatement`, the typed operand values |
| `sql_like.dfy` | `SqlLike` | SQL `LIKE` with `%` and `_` and no escape character |
| `book_model.dfy` | `BookModel` | `BookRecord` (a book's state), the `Book` entity class, `BookDto`, `ValidBook`, `Book.update` |
| `search_criteria.dfy` | `Criteria` | `SearchCriteria` (`add`, `toPredicate`) and the match semantics of one statement list |
| `book_repository.dfy` | `Repository` | `search`'s statement list, and the store class with `getBooks`/`getById`/`save`/`delete`/`search` |
| `book_service.dfy` | `Service` | `BookServiceImpl` and the functions that specify it |

The store is a `map<int, BookRecord>` plus an id generator, `nextId`, which stands in for the database's IDENTITY column. `getById` returns a fresh `Book` object that holds the stored value. A `List<Book>` result is modelled as a set of book values, because the database returns rows in no specified order.

A criteria query evaluates each statement against one book. A NULL column satisfies no condition. For a pure conjunction of conditions this gives the same rows as SQL's `WHERE`.

Some behaviours of the code are easy to misread or look unintended; the model keeps them as written:

- The title criterion is passed to the statement as given. It is lower-cased only inside the `MATCH` predicate, not when the statement is built.
- `updateBook(id, dto)` copies `title`, `language` and `image` only when they have length, so `""` is ignored for those three. `description` and `isbn` are copied whenever they are non-null, so `""` overwrites them.
- The service never re-validates the book it saves. `createBook` checks lengths before trimming, so a non-empty title made only of characters at or below U+0020 is accepted, and the model stores it as `""`. `updateBook` can blank a title the same way. The model proves both: `Service.CreateAcceptsBlankTitle` and `Service.SparseCopyBlankTitleBreaksValidity`.
- `getBooks` returns null for an unfiltered empty store, but an empty list for a filtered query with no match. This asymmetry is kept.

## Model

Source paths are relative to the root of the original repository.

| member | source | states |
|---|---|---|
| JavaText.Trim | src/main/java/com/relatos_de_papel/book/service/BookServiceImpl.java:86-95 | `trim` never lengthens a string, and the result neither starts nor ends with a character at or below U+0020 |
| JavaText.TrimIsInfix | src/main/java/com/relatos_de_papel/book/service/BookServiceImpl.java:86-95 | the trimmed string is the infix left after cutting only trimmable characters from both ends |
| JavaText.TrimIdempotent | src/main/java/com/relatos_de_papel/book/service/BookServiceImpl.java:142-169 | trimming a trimmed string changes nothing |
| JavaText.TrimEmptyIffAllTrimmable | src/main/java/com/relatos_de_papel/book/data/model/Book.java:30 | a string trims to "" exactly when every character is at or below U+0020 |
| JavaLong.LongValue | src/main/java/com/relatos_de_papel/book/service/BookServiceImpl.java:52 | whatever `Long.valueOf` accepts lies in the 64-bit signed range |
| JavaLong.ParseLong | src/main/java/com/relatos_de_papel/book/service/BookServiceImpl.java:52-56 | the JDK digit loop, which accumulates negatively against a limit and checks overflow before and after each multiplication by ten, returns exactly the contract value: an optional sign, one or more digits, no whitespace, and the value in range |
| JavaLong.PrefixOverflow | src/main/java/com/relatos_de_papel/book/service/BookServiceImpl.java:52-56 | once the digits read so far exceed the bound, parsing fails whatever follows |
| JavaLong.DigitsValueMonotone | src/main/java/com/relatos_de_papel/book/service/BookServiceImpl.java:52 | a prefix of a digit string never denotes a larger number |
| JavaLong.LongValueRejects | src/main/java/com/relatos_de_papel/book/service/BookServiceImpl.java:52-56 | examples: "", a lone "+" or "-", " 7", "7 " and "1a" are rejected |
| JavaLong.NonDigitRejected | src/main/java/com/relatos_de_papel/book/service/BookServiceImpl.java:52-56 | any string with a non-digit after the optional sign is rejected |
| JavaLong.PaddedRejected | src/main/java/com/relatos_de_papel/book/service/BookServiceImpl.java:52-56 | any string with a leading or trailing space is rejected |
| JavaLong.LongValueAccepts | src/main/java/com/relatos_de_papel/book/service/BookServiceImpl.java:52 | an explicit "+" is accepted ("+42" is 42), and "-0" is 0 |
| JavaLong.LongToStringRoundTrip | src/main/java/com/relatos_de_papel/book/service/BookServiceImpl.java:52 | parsing the decimal text of any 64-bit value gives the value back |
| JavaLong.LongToStringOutOfRange | src/main/java/com/relatos_de_papel/book/service/BookServiceImpl.java:52-56 | the decimal text of every number outside the 64-bit range is rejected |
| SqlLike.LikeLiteralPrefix | src/main/java/com/relatos_de_papel/book/data/utils/SearchCriteria.java:56-64 | a wildcard-free pattern head must match the string's head literally |
| SqlLike.LikeLeadingPercent | src/main/java/com/relatos_de_papel/book/data/utils/SearchCriteria.java:56-59 | a leading `%` matches the rest of the pattern at some suffix |
| SqlLike.MatchPatternIsContainment | src/main/java/com/relatos_de_papel/book/data/utils/SearchCriteria.java:56-59 | `LIKE '%' + v + '%'` with a wildcard-free `v` is exactly substring containment of `v` |
| SqlLike.MatchEndPatternIsPrefix | src/main/java/com/relatos_de_papel/book/data/utils/SearchCriteria.java:61-64 | `LIKE v + '%'` with a wildcard-free `v` is exactly a prefix test |
| SqlLike.LowerKeepsWildcards | src/main/java/com/relatos_de_papel/book/data/utils/SearchCriteria.java:59 | lower-casing the operand neither adds nor removes `%` or `_` |
| SqlLike.UnderscoreMatchesAnyChar | src/main/java/com/relatos_de_papel/book/data/utils/SearchCriteria.java:56-59 | "%a_c%" matches "abc", which does not contain "a_c" |
| BookModel.NotBlankIffVisibleChar | src/main/java/com/relatos_de_papel/book/data/model/Book.java:30-82 | a string is `@NotBlank` exactly when it holds a character above U+0020 |
| BookModel.Column | src/main/java/com/relatos_de_papel/book/data/utils/SearchCriteria.java:48-65 | a non-null attribute value always has the kind declared for its key |
| BookModel.Overwritten | src/main/java/com/relatos_de_papel/book/data/model/Book.java:98-111 | `update` keeps the id |
| BookModel.OverwrittenForgetsOldState | src/main/java/com/relatos_de_papel/book/data/model/Book.java:98-111 | after `update` nothing of the old book remains except its id |
| BookModel.OverwrittenIdempotent | src/main/java/com/relatos_de_papel/book/data/model/Book.java:98-111 | applying `update` twice with the same request equals applying it once |
| BookModel.OverwrittenClearsNulls | src/main/java/com/relatos_de_papel/book/data/model/Book.java:99-103 | each of title, description and isbn that is null in the request becomes null in the book, field by field; a null title changes a book that had one |
| BookModel.Book.constructor | src/main/java/com/relatos_de_papel/book/data/model/Book.java:19-21 | the all-arguments constructor holds exactly the given state |
| BookModel.Book.Update | src/main/java/com/relatos_de_papel/book/data/model/Book.java:98-111 | it throws exactly when `numberPages`, `reviewScore` or `status` is null. Otherwise the new state is `Overwritten(old state, dto)`. On a throw, the assignments made before the failing unboxing stay in effect |
| Criteria.MatchesIffEvery | src/main/java/com/relatos_de_papel/book/data/utils/SearchCriteria.java:30-69 | a book matches iff it satisfies every statement; the empty list matches every book |
| Criteria.MatchesConcat | src/main/java/com/relatos_de_papel/book/data/utils/SearchCriteria.java:69 | matching a concatenation is matching both parts |
| Criteria.AddOnlyNarrows | src/main/java/com/relatos_de_papel/book/data/utils/SearchCriteria.java:23-69 | adding a statement keeps exactly the books that also satisfy it |
| Criteria.MatchesPermutation | src/main/java/com/relatos_de_papel/book/data/utils/SearchCriteria.java:69 | reordering the statements does not change which books match |
| Criteria.EqualNotEqualComplement | src/main/java/com/relatos_de_papel/book/data/utils/SearchCriteria.java:48-55 | on a non-null attribute, `EQUAL` and `NOT_EQUAL` on the same operand are complements |
| Criteria.MatchIsContainment | src/main/java/com/relatos_de_papel/book/data/utils/SearchCriteria.java:56-60 | with a wildcard-free operand, `MATCH` is case-insensitive substring containment on a non-null attribute |
| Criteria.MatchEndIsPrefix | src/main/java/com/relatos_de_papel/book/data/utils/SearchCriteria.java:61-65 | with a wildcard-free operand, `MATCH_END` is a case-insensitive prefix test on a non-null attribute |
| Criteria.UnderscoreIsWildcard | src/main/java/com/relatos_de_papel/book/data/utils/SearchCriteria.java:56-60 | the operand "a_c" matches the title "ABC", because `_` is not escaped |
| Criteria.SearchCriteria.constructor | src/main/java/com/relatos_de_papel/book/data/utils/SearchCriteria.java:18 | a new specification has no statement |
| Criteria.SearchCriteria.Add | src/main/java/com/relatos_de_papel/book/data/utils/SearchCriteria.java:23-25 | the statement is appended at the end, and earlier statements and their order are kept |
| Criteria.SearchCriteria.ToPredicate | src/main/java/com/relatos_de_papel/book/data/utils/SearchCriteria.java:28-70 | the collect-then-AND loop answers exactly `Matches(list, b)` |
| Repository.TitleStatement | src/main/java/com/relatos_de_papel/book/data/repository/BookRepository.java:67 | ("title", title, MATCH) is a supported statement and comes first in key order |
| Repository.LanguageStatement | src/main/java/com/relatos_de_papel/book/data/repository/BookRepository.java:71 | ("language", language, EQUAL) is supported and comes second |
| Repository.CategoryStatement | src/main/java/com/relatos_de_papel/book/data/repository/BookRepository.java:75 | ("categoryId", id, EQUAL) is supported and comes third |
| Repository.StatusStatement | src/main/java/com/relatos_de_papel/book/data/repository/BookRepository.java:79 | ("status", status, EQUAL) is supported and comes last |
| Repository.SearchStatements | src/main/java/com/relatos_de_papel/book/data/repository/BookRepository.java:65-80 | every statement `search` builds is one the criteria query supports |
| Repository.PresentCount | src/main/java/com/relatos_de_papel/book/data/repository/BookRepository.java:65-80 | at most four criteria can be present |
| Repository.SearchStatementCount | src/main/java/com/relatos_de_papel/book/data/repository/BookRepository.java:65-80 | there is one statement per present criterion: a null criterion, or "" for title or language, adds none |
| Repository.SearchStatementOrder | src/main/java/com/relatos_de_papel/book/data/repository/BookRepository.java:65-80 | statements come in the order title, language, categoryId, status, with at most one of each |
| Repository.SearchStatementsMembers | src/main/java/com/relatos_de_papel/book/data/repository/BookRepository.java:65-80 | the statements are exactly those of the present criteria, with the title un-lowercased |
| Repository.SearchStatementsExact | src/main/java/com/relatos_de_papel/book/data/repository/BookRepository.java:65-80 | a statement under a criterion's key exists iff that criterion is present |
| Repository.NoCriteriaNoStatements | src/main/java/com/relatos_de_papel/book/data/repository/BookRepository.java:63-80 | with no criterion the specification stays empty |
| Repository.SingleStatement | src/main/java/com/relatos_de_papel/book/data/utils/SearchCriteria.java:69 | a one-statement list imposes exactly that statement's condition |
| Repository.TitlePartMeaning | src/main/java/com/relatos_de_papel/book/data/repository/BookRepository.java:65-68 | a present title asks for a non-null title that matches `LIKE %title%` case-insensitively; an absent one asks nothing |
| Repository.LanguagePartMeaning | src/main/java/com/relatos_de_papel/book/data/repository/BookRepository.java:69-72 | a present language asks for equality; an absent one asks nothing |
| Repository.CategoryPartMeaning | src/main/java/com/relatos_de_papel/book/data/repository/BookRepository.java:73-76 | a present category id asks for equality; an absent one asks nothing |
| Repository.StatusPartMeaning | src/main/java/com/relatos_de_papel/book/data/repository/BookRepository.java:77-80 | a present status asks for equality; an absent one asks nothing |
| Repository.SearchStatementsSplit | src/main/java/com/relatos_de_papel/book/data/repository/BookRepository.java:65-80 | the built list holds iff each criterion's part holds |
| Repository.SearchMeaning | src/main/java/com/relatos_de_papel/book/data/repository/BookRepository.java:58-84 | a book satisfies the built list iff it satisfies every present criterion: the title case-insensitively as `LIKE %title%`, the other three by equality |
| Repository.SearchTitleIsContainment | src/main/java/com/relatos_de_papel/book/data/repository/BookRepository.java:65-68 | a wildcard-free title criterion is case-insensitive substring containment |
| Repository.MatchingIffEvery | src/main/java/com/relatos_de_papel/book/data/repository/BookRepository.java:83 | `findAll(spec)` returns a book iff it is stored and satisfies every statement |
| Repository.MatchingEmptySpec | src/main/java/com/relatos_de_papel/book/data/repository/BookRepository.java:83 | an empty specification returns the whole store |
| Repository.MatchingNarrows | src/main/java/com/relatos_de_papel/book/data/repository/BookRepository.java:83 | adding a statement can only shrink the result |
| Repository.SearchWithoutCriteriaIsAll | src/main/java/com/relatos_de_papel/book/data/repository/BookRepository.java:63-83 | `search` with no criterion returns every stored book |
| Repository.EmptyStoreIffNoBooks | src/main/java/com/relatos_de_papel/book/service/BookServiceImpl.java:42-43 | `findAll()` is empty exactly when the store is |
| Repository.BookRepository.constructor | src/main/java/com/relatos_de_papel/book/data/repository/BookRepository.java:15-19 | a new store is empty and consistent |
| Repository.BookRepository.GetBooks | src/main/java/com/relatos_de_papel/book/data/repository/BookRepository.java:24-26 | returns every stored book |
| Repository.BookRepository.GetById | src/main/java/com/relatos_de_papel/book/data/repository/BookRepository.java:31-33 | null iff the key is absent; otherwise a fresh entity holding the stored book |
| Repository.BookRepository.Save | src/main/java/com/relatos_de_papel/book/data/repository/BookRepository.java:38-40 | a book with a stored id overwrites that entry and nothing else. Any other book gets the next generated id, written back into the entity, and is inserted. Store consistency is kept |
| Repository.BookRepository.Delete | src/main/java/com/relatos_de_papel/book/data/repository/BookRepository.java:45-47 | removes exactly the entry under the book's id |
| Repository.BookRepository.Search | src/main/java/com/relatos_de_papel/book/data/repository/BookRepository.java:58-84 | the conditional `add` calls build exactly `SearchStatements(...)`, and the result is the stored books matching it |
| Service.RequestedId | src/main/java/com/relatos_de_papel/book/service/BookServiceImpl.java:48-53 | a looked-up key always lies in the 64-bit range |
| Service.RequestedIdRejects | src/main/java/com/relatos_de_papel/book/service/BookServiceImpl.java:48-56 | a null, empty or lone-sign id, any id with a leading or trailing space, and any id with a non-digit after the optional sign never reaches the store |
| Service.RequestedIdRejectsOutOfRange | src/main/java/com/relatos_de_papel/book/service/BookServiceImpl.java:52-56 | the decimal text of any number outside the 64-bit range never reaches the store |
| Service.RequestedIdOfDecimal | src/main/java/com/relatos_de_papel/book/service/BookServiceImpl.java:52-53 | every 64-bit id is reached through its decimal text |
| Service.TrimOrNull | src/main/java/com/relatos_de_papel/book/service/BookServiceImpl.java:87-90 | the result is null exactly when the input is |
| Service.CreateRejectsIff | src/main/java/com/relatos_de_papel/book/service/BookServiceImpl.java:74-82 | null is returned exactly for a null request, for a title, language or image without length, or for a null price, categoryId or authorId |
| Service.CreateUnboxingFailure | src/main/java/com/relatos_de_papel/book/service/BookServiceImpl.java:91-97 | when the check passes, the build throws iff `numberPages`, `reviewScore` or `status` is null |
| Service.CreateBuiltShape | src/main/java/com/relatos_de_papel/book/service/BookServiceImpl.java:85-98 | the built book has no id. Its title, language and image are the trimmed request values, and trimming them again changes nothing. Description and isbn are the trimmed request values, or null when the request's are. Every other field is copied, and the required references are set |
| Service.TrimKeepsConstraints | src/main/java/com/relatos_de_papel/book/data/model/Book.java:30-31 | trimming keeps a size limit and does not change blankness |
| Service.CreateBuiltValidIff | src/main/java/com/relatos_de_papel/book/data/model/Book.java:30-88 | a built book meets the entity constraints iff the request's trimmed values do |
| Service.CreateAcceptsBlankTitle | src/main/java/com/relatos_de_papel/book/service/BookServiceImpl.java:74-86 | every non-empty title made only of characters at or below U+0020 passes the check, is trimmed to "", and breaks `@NotBlank` |
| Service.SparseCopyEmptyIsIdentity | src/main/java/com/relatos_de_papel/book/service/BookServiceImpl.java:141-176 | a request with every field null leaves the book as it was |
| Service.SparseCopyIdempotent | src/main/java/com/relatos_de_papel/book/service/BookServiceImpl.java:141-176 | applying the same request twice equals applying it once |
| Service.SparseCopyNeverClears | src/main/java/com/relatos_de_papel/book/service/BookServiceImpl.java:141-176 | the id never changes and no set field becomes null |
| Service.SparseCopyKeepsUnsupplied | src/main/java/com/relatos_de_papel/book/service/BookServiceImpl.java:141-176 | every field the request does not supply keeps its value |
| Service.SparseCopyTakesSupplied | src/main/java/com/relatos_de_papel/book/service/BookServiceImpl.java:141-176 | every field the request supplies takes its value, trimmed for text |
| Service.SparseCopyOnlyTitle | src/main/java/com/relatos_de_papel/book/service/BookServiceImpl.java:141-143 | a request with only a title changes the title and nothing else |
| Service.SparseCopyEmptyStrings | src/main/java/com/relatos_de_papel/book/service/BookServiceImpl.java:141-169 | "" overwrites description and isbn, but "" for title, language or image is ignored |
| Service.SparseCopyVersusUpdate | src/main/java/com/relatos_de_papel/book/service/BookServiceImpl.java:144-146 | a null description leaves the PUT-style copy unchanged, where `Book.update` clears it |
| Service.RequiredTextKept | src/main/java/com/relatos_de_papel/book/service/BookServiceImpl.java:141-169 | a required text field stays non-blank and within its limit under a conforming value |
| Service.OptionalTextKept | src/main/java/com/relatos_de_papel/book/service/BookServiceImpl.java:144-154 | an optional text field stays within its limit under a conforming value |
| Service.SparseCopyPreservesValid | src/main/java/com/relatos_de_papel/book/service/BookServiceImpl.java:141-176 | a valid book stays valid when the request's values conform |
| Service.SparseCopyBlankTitleBreaksValidity | src/main/java/com/relatos_de_papel/book/service/BookServiceImpl.java:141-142 | every non-empty title made only of characters at or below U+0020 is copied, trimmed to "", and makes the book invalid |
| Service.CopyRequested | src/main/java/com/relatos_de_papel/book/service/BookServiceImpl.java:140-176 | after the setter phase the entity holds `SparseCopy(old state, dto)` |
| Service.BookServiceImpl.constructor | src/main/java/com/relatos_de_papel/book/service/BookServiceImpl.java:22-27 | the service wraps the given repository |
| Service.BookServiceImpl.GetBooks | src/main/java/com/relatos_de_papel/book/service/BookServiceImpl.java:31-44 | with any criterion present, including a blank title or language, the result is exactly `search` and never null. Without criteria it is the whole store. It is null iff there is no criterion and the store is empty |
| Service.BookServiceImpl.GetBook | src/main/java/com/relatos_de_papel/book/service/BookServiceImpl.java:47-58 | null iff the id does not parse or is not stored; otherwise the stored book under the parsed id |
| Service.BookServiceImpl.RemoveBook | src/main/java/com/relatos_de_papel/book/service/BookServiceImpl.java:61-69 | true and a deletion iff `getBook` finds the book; otherwise false and the store is unchanged. The id generator never moves |
| Service.BookServiceImpl.CreateBook | src/main/java/com/relatos_de_papel/book/service/BookServiceImpl.java:72-101 | null and nothing saved for a rejected request, or for one that fails on unboxing (flagged). Otherwise the built book is stored under the generator's next id, which then advances by one, and returned. On a null result the generator does not move |
| Service.BookServiceImpl.UpdateBook | src/main/java/com/relatos_de_papel/book/service/BookServiceImpl.java:134-179 | null and nothing saved for a bad id, a missing book or a null request. Otherwise the entry becomes `SparseCopy(old entry, dto)` and nothing else in the store changes. The id generator never moves |
| Service.CreateThenGet | src/main/java/com/relatos_de_papel/book/service/BookServiceImpl.java:47-101 | a created book is found again through the decimal text of its new id |

## Left out

- `updateBook(String, String)`, the JSON Merge Patch path (section 2 of RFC 7386). The merge and the entity–JSON conversion are done by library code whose null and unknown-property handling is not visible here.
- `BookController.java` (HTTP routing and status mapping), `BookJpaRepository.java` (derived queries) and `BeanConfig.java` (wiring) are not part of this model.
- ID generation: the database's IDENTITY column is replaced by the counter `nextId`. Isbn uniqueness is a database constraint and is not modelled.
- Repository.BookRepository.Save: a book whose id is set but not stored is inserted under a fresh id. JPA's `merge` of such a detached entity depends on the provider.
- Repository.BookRepository.GetById: returns a detached copy of the stored book. The persistence context, and aliasing between managed entities, are not modelled.
- Criteria.SearchCriteria.ToPredicate: requires every statement to be supported, which excludes the rest:
  - the ordered operations `GREATER_THAN`, `LESS_THAN`, `GREATER_THAN_EQUAL` and `LESS_THAN_EQUAL`, which compare against `value.toString()` with a provider-dependent result;
  - keys that are not entity attributes;
  - operands whose type does not match the attribute.

  `search` never builds any of these.
- Criteria.Holds: a NULL column fails every condition, `NOT_EQUAL` included. SQL's three-valued logic is not modelled beyond that, and it only matters under negation, which no query here uses. `EQUAL` and `NOT_EQUAL` on text are exact string equality; a database collation that ignores case or trailing spaces in `language = ?` is not modelled.
- SqlLike.Like: there is no escape character and no database collation. Lower-casing is ASCII only, and locale-sensitive case mapping is not modelled.
- JavaLong.LongValue: only ASCII digits are accepted. `Long.parseLong` also accepts other Unicode decimal digits.
- `BigDecimal` is a real, so scale and precision (`DECIMAL(10,2)`) are not modelled. `LocalDate` is an opaque day number.
- Integer widths: ids, `Long` and `Integer` fields are unbounded integers. Only id parsing enforces the 64-bit range.
- BookModel.ValidBook: lengths count Unicode characters; Java counts UTF-16 code units, so they differ outside the Basic Multilingual Plane. It is also a predicate only. When Bean Validation fires (`@Valid`, JPA pre-persist) is not modelled, and `Save` does not check it.
- BookModel.Book.Update and Service.BookServiceImpl.CreateBook model the NullPointerException from unboxing a null wrapper as a returned flag rather than an exception.
- Service.CopyRequested: each guarded setter is written as one assignment of `TrimmedIfHasLength`, `TrimmedIfPresent`, `IfPresent` or `UnboxedIfPresent`. A field the request omits is assigned its own value, and that cannot be observed.
- Results of `getBooks` and `search` are sets of book values. The row order of a `List<Book>` is not modelled.
- Logging and concurrent access are not modelled. The `ObjectMapper` field is used only by the merge-patch path.
