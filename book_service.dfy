/**
 * `BookServiceImpl.java`: listing with optional filters, lookup and removal by
 * a textual id, creation from a request, and the PUT-style update that copies
 * only the fields a request supplies.
 */
module Service {
  import opened JavaTypes
  import opened JavaText
  import opened JavaLong
  import opened SearchTypes
  import opened BookModel
  import opened Repository

  // ------------------------------------------------------------- getBooks

  /** `getBooks` delegates to `search` when any criterion is present. */
  predicate HasCriteria(title: Option<string>, language: Option<string>,
                        categoryId: Option<int>, status: Option<bool>) {
    HasLength(title) || HasLength(language) || categoryId.Some? || status.Some?
  }

  // -------------------------------------------------------------- getBook

  /** The key `getBook` looks up; `None` where it returns null without reading the store. */
  function RequestedId(bookId: Option<string>): (r: Option<int>)
    ensures r.Some? ==> LONG_MIN <= r.value <= LONG_MAX
  {
    if !HasLength(bookId) then None else LongValue(bookId.value)
  }

  /**
   * Null, empty and lone-sign ids, ids padded with a space on either side, and
   * ids holding a non-digit after the optional sign never reach the store.
   */
  lemma RequestedIdRejects(s: string, k: nat)
    ensures RequestedId(None) == None && RequestedId(Some("")) == None
    ensures RequestedId(Some("+")) == None && RequestedId(Some("-")) == None
    ensures RequestedId(Some(" " + s)) == None && RequestedId(Some(s + " ")) == None
    ensures SignLength(s) <= k < |s| && !IsDigit(s[k]) ==> RequestedId(Some(s)) == None
  {
    LongValueRejects();
    PaddedRejected(s);
    if SignLength(s) <= k < |s| && !IsDigit(s[k]) {
      NonDigitRejected(s, k);
    }
  }

  /** The decimal text of a number outside the 64-bit range never reaches the store. */
  lemma RequestedIdRejectsOutOfRange(n: int)
    requires n < LONG_MIN || LONG_MAX < n
    ensures RequestedId(Some(LongToString(n))) == None
  {
    LongToStringOutOfRange(n);
  }

  /** Every id in the 64-bit range is reached through its decimal text. */
  lemma RequestedIdOfDecimal(id: int)
    requires LONG_MIN <= id <= LONG_MAX
    ensures RequestedId(Some(LongToString(id))) == Some(id)
  {
    LongToStringRoundTrip(id);
  }

  // ----------------------------------------------------------- createBook

  /** What `createBook` does with a request before saving. */
  datatype Creation =
    | Rejected              // returns null
    | NullUnboxed           // a NullPointerException from unboxing into a primitive field
    | Built(book: BookRecord)

  /** The check `createBook` applies to the untrimmed request. */
  predicate MissingRequired(r: CreateBookRequest) {
    || !HasLength(r.title) || !HasLength(r.language)
    || r.price.None? || r.categoryId.None? || r.authorId.None?
    || !HasLength(r.image)
  }

  function TrimOrNull(s: Option<string>): (r: Option<string>)
    ensures r.Some? <==> s.Some?
  {
    if s.Some? then Some(Trim(s.value)) else None
  }

  /** The outcome of `createBook`'s validation and builder steps. */
  function CreateDraft(request: Option<CreateBookRequest>): Creation {
    if request.None? || MissingRequired(request.value) then Rejected
    else
      var r := request.value;
      if r.numberPages.None? || r.reviewScore.None? || r.status.None? then NullUnboxed
      else Built(BookRecord(
        None, Some(Trim(r.title.value)), TrimOrNull(r.description), r.publicationDate,
        Some(Trim(r.language.value)), TrimOrNull(r.isbn), r.numberPages.value, r.price,
        r.categoryId, r.authorId, Some(Trim(r.image.value)), r.reviewScore.value, r.status.value))
  }

  /** `createBook` returns null exactly for a null request or a missing required field. */
  lemma CreateRejectsIff(request: Option<CreateBookRequest>)
    ensures CreateDraft(request).Rejected? <==>
      || request.None?
      || !HasLength(request.value.title) || !HasLength(request.value.language)
      || !HasLength(request.value.image)
      || request.value.price.None? || request.value.categoryId.None? || request.value.authorId.None?
  {
  }

  /** A request passing the check fails on unboxing iff `numberPages`, `reviewScore` or `status` is null. */
  lemma CreateUnboxingFailure(request: CreateBookRequest)
    requires !MissingRequired(request)
    ensures CreateDraft(Some(request)).NullUnboxed? <==>
      request.numberPages.None? || request.reviewScore.None? || request.status.None?
  {
  }

  /**
   * A built book has no id yet, trimmed text fields, every required reference
   * set, optional text null exactly where the request's is, and every
   * non-text field copied from the request.
   */
  lemma CreateBuiltShape(request: CreateBookRequest)
    requires CreateDraft(Some(request)).Built?
    ensures var b := CreateDraft(Some(request)).book;
      && b.id.None?
      && b.title == Some(Trim(request.title.value)) && Trim(b.title.value) == b.title.value
      && b.language == Some(Trim(request.language.value)) && Trim(b.language.value) == b.language.value
      && b.image == Some(Trim(request.image.value)) && Trim(b.image.value) == b.image.value
      && b.description == TrimOrNull(request.description)
      && b.isbn == TrimOrNull(request.isbn)
      && (b.description.Some? <==> request.description.Some?)
      && (b.description.Some? ==> Trim(b.description.value) == b.description.value)
      && (b.isbn.Some? <==> request.isbn.Some?)
      && (b.isbn.Some? ==> Trim(b.isbn.value) == b.isbn.value)
      && b.price == request.price && b.price.Some?
      && b.categoryId == request.categoryId && b.categoryId.Some?
      && b.authorId == request.authorId && b.authorId.Some?
      && b.publicationDate == request.publicationDate
      && Some(b.numberPages) == request.numberPages
      && Some(b.reviewScore) == request.reviewScore
      && Some(b.status) == request.status
  {
    TrimIdempotent(request.title.value);
    TrimIdempotent(request.language.value);
    TrimIdempotent(request.image.value);
    if request.description.Some? { TrimIdempotent(request.description.value); }
    if request.isbn.Some? { TrimIdempotent(request.isbn.value); }
  }

  /** Trimming keeps a string within a size limit and keeps it (not) blank. */
  lemma TrimKeepsConstraints(s: string, n: nat)
    ensures SizeAtMost(Some(s), n) ==> SizeAtMost(Some(Trim(s)), n)
    ensures NotBlank(Some(Trim(s))) <==> NotBlank(Some(s))
  {
    TrimIdempotent(s);
  }

  /** What a request must hold for the book `createBook` builds from it to satisfy the entity's constraints. */
  predicate RequestConforms(r: CreateBookRequest) {
    && NotBlank(r.title) && |Trim(r.title.value)| <= 150
    && (r.description.Some? ==> |Trim(r.description.value)| <= 300)
    && NotBlank(r.language) && |Trim(r.language.value)| <= 100
    && (r.isbn.Some? ==> |Trim(r.isbn.value)| <= 150)
    && r.numberPages.Some? && r.numberPages.value >= 1
    && r.price.Some? && r.price.value >= 0.0
    && NotBlank(r.image) && |Trim(r.image.value)| <= 300
    && r.reviewScore.Some? && 0 <= r.reviewScore.value <= 5
  }

  /** A built book satisfies the entity constraints exactly when the request conforms. */
  lemma CreateBuiltValidIff(request: CreateBookRequest)
    requires CreateDraft(Some(request)).Built?
    ensures ValidBook(CreateDraft(Some(request)).book) <==> RequestConforms(request)
  {
    TrimKeepsConstraints(request.title.value, 150);
    TrimKeepsConstraints(request.language.value, 100);
    TrimKeepsConstraints(request.image.value, 300);
  }

  /**
   * Lengths are checked before trimming: a title of spaces passes the check,
   * is stored as "", and the built book then breaks the title's `@NotBlank`.
   */
  lemma CreateAcceptsBlankTitle(request: CreateBookRequest)
    requires !MissingRequired(request) && Unboxable(request)
    requires request.title.Some? && |request.title.value| > 0
    requires forall k :: 0 <= k < |request.title.value| ==> IsTrimmable(request.title.value[k])
    ensures CreateDraft(Some(request)).Built?
    ensures CreateDraft(Some(request)).book.title == Some("")
    ensures !ValidBook(CreateDraft(Some(request)).book)
  {
    TrimEmptyIffAllTrimmable(request.title.value);
  }

  // ------------------------------------------------- updateBook(id, dto)

  /** A string setter of `updateBook(id, dto)` guarded by `hasLength`: the trimmed value, or the current one. */
  function TrimmedIfHasLength(v: Option<string>, current: Option<string>): Option<string> {
    if HasLength(v) then Some(Trim(v.value)) else current
  }

  /** A string setter guarded by a null check: the trimmed value (even ""), or the current one. */
  function TrimmedIfPresent(v: Option<string>, current: Option<string>): Option<string> {
    if v.Some? then Some(Trim(v.value)) else current
  }

  /** A reference setter guarded by a null check. */
  function IfPresent<T>(v: Option<T>, current: Option<T>): Option<T> {
    if v.Some? then v else current
  }

  /** A primitive setter guarded by a null check, so the wrapper is unboxed only when present. */
  function UnboxedIfPresent<T>(v: Option<T>, current: T): T {
    if v.Some? then v.value else current
  }

  /** The book `updateBook(id, dto)` saves: every field the request supplies, and only those, overwritten. */
  function SparseCopy(b: BookRecord, dto: BookDto): BookRecord {
    b.(
      title := TrimmedIfHasLength(dto.title, b.title),
      description := TrimmedIfPresent(dto.description, b.description),
      publicationDate := IfPresent(dto.publicationDate, b.publicationDate),
      language := TrimmedIfHasLength(dto.language, b.language),
      isbn := TrimmedIfPresent(dto.isbn, b.isbn),
      numberPages := UnboxedIfPresent(dto.numberPages, b.numberPages),
      price := IfPresent(dto.price, b.price),
      categoryId := IfPresent(dto.categoryId, b.categoryId),
      authorId := IfPresent(dto.authorId, b.authorId),
      image := TrimmedIfHasLength(dto.image, b.image),
      reviewScore := UnboxedIfPresent(dto.reviewScore, b.reviewScore),
      status := UnboxedIfPresent(dto.status, b.status))
  }

  const EmptyDto: BookDto :=
    BookDto(None, None, None, None, None, None, None, None, None, None, None, None)

  /** A request with every field null leaves the book as it was. */
  lemma SparseCopyEmptyIsIdentity(b: BookRecord)
    ensures SparseCopy(b, EmptyDto) == b
  {
  }

  /** Applying the same request twice yields the same book as applying it once. */
  lemma SparseCopyIdempotent(b: BookRecord, dto: BookDto)
    ensures SparseCopy(SparseCopy(b, dto), dto) == SparseCopy(b, dto)
  {
  }

  /** The update never changes the id and never clears a field: null always means "leave as is". */
  lemma SparseCopyNeverClears(b: BookRecord, dto: BookDto)
    ensures var r := SparseCopy(b, dto);
      && r.id == b.id
      && (b.title.Some? ==> r.title.Some?) && (b.description.Some? ==> r.description.Some?)
      && (b.publicationDate.Some? ==> r.publicationDate.Some?) && (b.language.Some? ==> r.language.Some?)
      && (b.isbn.Some? ==> r.isbn.Some?) && (b.price.Some? ==> r.price.Some?)
      && (b.categoryId.Some? ==> r.categoryId.Some?) && (b.authorId.Some? ==> r.authorId.Some?)
      && (b.image.Some? ==> r.image.Some?)
  {
  }

  /** A field the request does not supply keeps its value, and so does the id. */
  lemma SparseCopyKeepsUnsupplied(b: BookRecord, dto: BookDto)
    ensures var r := SparseCopy(b, dto);
      && r.id == b.id
      && (!HasLength(dto.title) ==> r.title == b.title)
      && (dto.description.None? ==> r.description == b.description)
      && (dto.publicationDate.None? ==> r.publicationDate == b.publicationDate)
      && (!HasLength(dto.language) ==> r.language == b.language)
      && (dto.isbn.None? ==> r.isbn == b.isbn)
      && (dto.numberPages.None? ==> r.numberPages == b.numberPages)
      && (dto.price.None? ==> r.price == b.price)
      && (dto.categoryId.None? ==> r.categoryId == b.categoryId)
      && (dto.authorId.None? ==> r.authorId == b.authorId)
      && (!HasLength(dto.image) ==> r.image == b.image)
      && (dto.reviewScore.None? ==> r.reviewScore == b.reviewScore)
      && (dto.status.None? ==> r.status == b.status)
  {
  }

  /** A field the request supplies takes the request's value, trimmed for text. */
  lemma SparseCopyTakesSupplied(b: BookRecord, dto: BookDto)
    ensures var r := SparseCopy(b, dto);
      && (HasLength(dto.title) ==> r.title == Some(Trim(dto.title.value)))
      && (dto.description.Some? ==> r.description == Some(Trim(dto.description.value)))
      && (dto.publicationDate.Some? ==> r.publicationDate == dto.publicationDate)
      && (HasLength(dto.language) ==> r.language == Some(Trim(dto.language.value)))
      && (dto.isbn.Some? ==> r.isbn == Some(Trim(dto.isbn.value)))
      && (dto.numberPages.Some? ==> r.numberPages == dto.numberPages.value)
      && (dto.price.Some? ==> r.price == dto.price)
      && (dto.categoryId.Some? ==> r.categoryId == dto.categoryId)
      && (dto.authorId.Some? ==> r.authorId == dto.authorId)
      && (HasLength(dto.image) ==> r.image == Some(Trim(dto.image.value)))
      && (dto.reviewScore.Some? ==> r.reviewScore == dto.reviewScore.value)
      && (dto.status.Some? ==> r.status == dto.status.value)
  {
  }

  /** A request supplying only a title changes the title and nothing else. */
  lemma SparseCopyOnlyTitle(b: BookRecord, title: string)
    requires |title| > 0
    ensures SparseCopy(b, EmptyDto.(title := Some(title))) == b.(title := Some(Trim(title)))
  {
  }

  /** "" overwrites description and isbn, whereas "" for title, language or image is ignored. */
  lemma SparseCopyEmptyStrings(b: BookRecord, dto: BookDto)
    ensures dto.description == Some("") ==> SparseCopy(b, dto).description == Some("")
    ensures dto.isbn == Some("") ==> SparseCopy(b, dto).isbn == Some("")
    ensures dto.title == Some("") ==> SparseCopy(b, dto).title == b.title
    ensures dto.language == Some("") ==> SparseCopy(b, dto).language == b.language
    ensures dto.image == Some("") ==> SparseCopy(b, dto).image == b.image
  {
  }

  /** Unlike `Book.update`, which clears a field the request leaves null, the PUT path keeps it. */
  lemma SparseCopyVersusUpdate(b: BookRecord, dto: BookDto)
    requires Unboxable(dto) && dto.description.None? && b.description.Some?
    ensures SparseCopy(b, dto).description == b.description
    ensures Overwritten(b, dto).description.None?
  {
  }

  /** What a request must hold for a valid book to stay valid under the update. */
  predicate DtoConforms(dto: BookDto) {
    && (HasLength(dto.title) ==> NotBlank(dto.title) && |dto.title.value| <= 150)
    && (dto.description.Some? ==> |dto.description.value| <= 300)
    && (HasLength(dto.language) ==> NotBlank(dto.language) && |dto.language.value| <= 100)
    && (dto.isbn.Some? ==> |dto.isbn.value| <= 150)
    && (dto.numberPages.Some? ==> dto.numberPages.value >= 1)
    && (dto.price.Some? ==> dto.price.value >= 0.0)
    && (HasLength(dto.image) ==> NotBlank(dto.image) && |dto.image.value| <= 300)
    && (dto.reviewScore.Some? ==> 0 <= dto.reviewScore.value <= 5)
  }

  /** A required text field stays non-blank and within its limit when the request's value is too. */
  lemma RequiredTextKept(v: Option<string>, current: Option<string>, n: nat)
    requires NotBlank(current) && SizeAtMost(current, n)
    requires HasLength(v) ==> NotBlank(v) && |v.value| <= n
    ensures NotBlank(TrimmedIfHasLength(v, current)) && SizeAtMost(TrimmedIfHasLength(v, current), n)
  {
    if HasLength(v) { TrimKeepsConstraints(v.value, n); }
  }

  /** An optional text field stays within its limit when the request's value does. */
  lemma OptionalTextKept(v: Option<string>, current: Option<string>, n: nat)
    requires SizeAtMost(current, n) && SizeAtMost(v, n)
    ensures SizeAtMost(TrimmedIfPresent(v, current), n)
  {
    if v.Some? { TrimKeepsConstraints(v.value, n); }
  }

  /** The update keeps a valid book valid when the request's values conform. */
  lemma SparseCopyPreservesValid(b: BookRecord, dto: BookDto)
    requires ValidBook(b) && DtoConforms(dto)
    ensures ValidBook(SparseCopy(b, dto))
  {
    var r := SparseCopy(b, dto);
    RequiredTextKept(dto.title, b.title, 150);
    OptionalTextKept(dto.description, b.description, 300);
    RequiredTextKept(dto.language, b.language, 100);
    OptionalTextKept(dto.isbn, b.isbn, 150);
    RequiredTextKept(dto.image, b.image, 300);
    assert r.price == IfPresent(dto.price, b.price) && r.categoryId == IfPresent(dto.categoryId, b.categoryId);
    assert r.authorId == IfPresent(dto.authorId, b.authorId);
  }

  /** A title of spaces has length, so it is copied, trimmed to "", and the book loses its `@NotBlank` title. */
  lemma SparseCopyBlankTitleBreaksValidity(b: BookRecord, dto: BookDto)
    requires dto.title.Some? && |dto.title.value| > 0
    requires forall k :: 0 <= k < |dto.title.value| ==> IsTrimmable(dto.title.value[k])
    ensures SparseCopy(b, dto).title == Some("")
    ensures !ValidBook(SparseCopy(b, dto))
  {
    TrimEmptyIffAllTrimmable(dto.title.value);
  }

  /** The setter calls of `updateBook(id, dto)`, in source order: each field the request supplies is written into the entity. */
  method CopyRequested(b: Book, dto: BookDto)
    modifies b
    ensures b.Value() == SparseCopy(old(b.Value()), dto)
  {
    b.title := TrimmedIfHasLength(dto.title, b.title);
    b.description := TrimmedIfPresent(dto.description, b.description);
    b.publicationDate := IfPresent(dto.publicationDate, b.publicationDate);
    b.language := TrimmedIfHasLength(dto.language, b.language);
    b.isbn := TrimmedIfPresent(dto.isbn, b.isbn);
    b.numberPages := UnboxedIfPresent(dto.numberPages, b.numberPages);
    b.price := IfPresent(dto.price, b.price);
    b.categoryId := IfPresent(dto.categoryId, b.categoryId);
    b.authorId := IfPresent(dto.authorId, b.authorId);
    b.image := TrimmedIfHasLength(dto.image, b.image);
    b.reviewScore := UnboxedIfPresent(dto.reviewScore, b.reviewScore);
    b.status := UnboxedIfPresent(dto.status, b.status);
  }

  // ----------------------------------------------------------- the service

  class BookServiceImpl {
    const repository: BookRepository

    constructor (repository: BookRepository)
      ensures this.repository == repository
    {
      this.repository := repository;
    }

    /**
     * `getBooks`: the `search` result when any criterion is present (never
     * null, possibly empty); otherwise the whole store, or null when the store
     * is empty.
     */
    method GetBooks(title: Option<string>, language: Option<string>,
                    categoryId: Option<int>, status: Option<bool>) returns (r: Option<set<BookRecord>>)
      ensures HasCriteria(title, language, categoryId, status) ==>
        r == Some(Matching(repository.books, SearchStatements(title, language, categoryId, status)))
      ensures !HasCriteria(title, language, categoryId, status) ==>
        r == (if repository.books == map[] then None else Some(repository.books.Values))
      ensures r.None? <==> !HasCriteria(title, language, categoryId, status) && repository.books == map[]
    {
      if HasLength(title) || HasLength(language) || categoryId.Some? || status.Some? {
        var found := repository.Search(title, language, categoryId, status);
        return Some(found);
      }
      var all := repository.GetBooks();
      EmptyStoreIffNoBooks(repository.books);
      r := if all == {} then None else Some(all);
    }

    /** `getBook`: the stored book under the parsed id, or null for a bad id or a missing book. */
    method GetBook(bookId: Option<string>) returns (b: Book?)
      ensures b == null <==> RequestedId(bookId).None? || RequestedId(bookId).value !in repository.books
      ensures b != null ==> fresh(b) && b.Value() == repository.books[RequestedId(bookId).value]
    {
      if !HasLength(bookId) {
        return null;
      }
      var id := ParseLong(bookId.value);
      if id.None? {
        return null;
      }
      b := repository.GetById(id.value);
    }

    /** `removeBook`: deletes and answers true iff `getBook` finds the book; otherwise nothing changes. */
    method RemoveBook(bookId: Option<string>) returns (removed: bool)
      requires repository.Valid()
      modifies repository
      ensures repository.Valid()
      ensures repository.nextId == old(repository.nextId)
      ensures removed <==> RequestedId(bookId).Some? && RequestedId(bookId).value in old(repository.books)
      ensures repository.books ==
        if removed then old(repository.books) - {RequestedId(bookId).value} else old(repository.books)
    {
      var existing := GetBook(bookId);
      if existing != null {
        repository.Delete(existing);
        removed := true;
      } else {
        removed := false;
      }
    }

    /**
     * `createBook`: returns null and saves nothing for a rejected request;
     * `threw` reports the unboxing failure; otherwise the built book is saved
     * under a new id and returned.
     */
    method CreateBook(request: Option<CreateBookRequest>) returns (created: Book?, threw: bool)
      requires repository.Valid()
      modifies repository
      ensures repository.Valid()
      ensures threw <==> CreateDraft(request).NullUnboxed?
      ensures created != null <==> CreateDraft(request).Built?
      ensures created == null ==> repository.books == old(repository.books)
      ensures created == null ==> repository.nextId == old(repository.nextId)
      ensures created != null ==> repository.nextId == old(repository.nextId) + 1
      ensures created != null ==>
        && fresh(created)
        && created.Value() == CreateDraft(request).book.(id := Some(old(repository.nextId)))
        && repository.books == old(repository.books)[old(repository.nextId) := created.Value()]
    {
      if request.None?
        || !HasLength(request.value.title)
        || !HasLength(request.value.language)
        || request.value.price.None?
        || request.value.categoryId.None?
        || request.value.authorId.None?
        || !HasLength(request.value.image)
      {
        return null, false;
      }
      var r := request.value;
      if r.numberPages.None? || r.reviewScore.None? || r.status.None? {
        return null, true;
      }
      var book := new Book(BookRecord(
        None,
        Some(Trim(r.title.value)),
        if r.description.None? then None else Some(Trim(r.description.value)),
        r.publicationDate,
        Some(Trim(r.language.value)),
        if r.isbn.None? then None else Some(Trim(r.isbn.value)),
        r.numberPages.value,
        r.price,
        r.categoryId,
        r.authorId,
        Some(Trim(r.image.value)),
        r.reviewScore.value,
        r.status.value));
      created := repository.Save(book);
      threw := false;
    }

    /**
     * `updateBook(id, dto)`: null and no change for a missing book or a null
     * request; otherwise the fields the request supplies are set one by one
     * on the fetched entity, which is then saved back under its id.
     */
    method UpdateBook(bookId: Option<string>, updateRequest: Option<BookDto>) returns (updated: Book?)
      requires repository.Valid()
      modifies repository
      ensures repository.Valid()
      ensures updated == null <==>
        RequestedId(bookId).None? || RequestedId(bookId).value !in old(repository.books) || updateRequest.None?
      ensures repository.nextId == old(repository.nextId)
      ensures updated == null ==> repository.books == old(repository.books)
      ensures updated != null ==>
        var id := RequestedId(bookId).value;
        && updated.Value() == SparseCopy(old(repository.books)[id], updateRequest.value)
        && repository.books == old(repository.books)[id := updated.Value()]
    {
      var existing := GetBook(bookId);
      if existing == null || updateRequest.None? {
        return null;
      }
      CopyRequested(existing, updateRequest.value);
      updated := repository.Save(existing);
    }
  }

  /** A created book is found again through the decimal text of its new id. */
  method CreateThenGet(service: BookServiceImpl, request: CreateBookRequest) returns (created: Book?, fetched: Book?)
    requires service.repository.Valid() && service.repository.nextId <= LONG_MAX
    requires LONG_MIN <= service.repository.nextId
    modifies service.repository
    ensures created != null <==> CreateDraft(Some(request)).Built?
    ensures created != null ==> fetched != null && fetched.Value() == created.Value()
  {
    var threw;
    created, threw := service.CreateBook(Some(request));
    fetched := null;
    if created != null {
      var id := created.id.value;
      RequestedIdOfDecimal(id);
      fetched := service.GetBook(Some(LongToString(id)));
    }
  }
}
