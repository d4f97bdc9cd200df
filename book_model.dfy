/**
 * The `Book` entity (`Book.java`), the request shapes that carry its fields
 * (`BookDto.java`, `CreateBookRequest.java`), its declared Bean Validation
 * constraints, and the attribute lookup a JPA criteria query performs on it.
 */
module BookModel {
  import opened JavaTypes
  import opened JavaText
  import opened SearchTypes
  import Consts

  /**
   * The state of one `Book`. Reference-typed fields are nullable; `numberPages`,
   * `reviewScore` and `status` are Java primitives and so never null.
   */
  datatype BookRecord = BookRecord(
    id: Option<int>,
    title: Option<string>,
    description: Option<string>,
    publicationDate: Option<LocalDate>,
    language: Option<string>,
    isbn: Option<string>,
    numberPages: int,
    price: Option<BigDecimal>,
    categoryId: Option<int>,
    authorId: Option<int>,
    image: Option<string>,
    reviewScore: int,
    status: bool)

  /** The PUT request body: every field boxed and nullable. */
  datatype BookDto = BookDto(
    title: Option<string>,
    description: Option<string>,
    publicationDate: Option<LocalDate>,
    language: Option<string>,
    isbn: Option<string>,
    numberPages: Option<int>,
    price: Option<BigDecimal>,
    categoryId: Option<int>,
    authorId: Option<int>,
    image: Option<string>,
    reviewScore: Option<int>,
    status: Option<bool>)

  /** The POST request body has exactly the fields of `BookDto`. */
  type CreateBookRequest = BookDto

  // ---------------------------------------------------------------- validation

  /** `@NotBlank`: not null, and not empty once trimmed. */
  predicate NotBlank(s: Option<string>) {
    s.Some? && Trim(s.value) != []
  }

  /** `@Size(max = n)`: null passes; otherwise at most `n` characters. */
  predicate SizeAtMost(s: Option<string>, n: nat) {
    s.None? || |s.value| <= n
  }

  /** Every declared field constraint of the entity. */
  predicate ValidBook(b: BookRecord) {
    && NotBlank(b.title) && SizeAtMost(b.title, 150)
    && SizeAtMost(b.description, 300)
    && NotBlank(b.language) && SizeAtMost(b.language, 100)
    && SizeAtMost(b.isbn, 150)
    && b.numberPages >= 1
    && b.price.Some? && b.price.value >= 0.0
    && b.categoryId.Some?
    && b.authorId.Some?
    && NotBlank(b.image) && SizeAtMost(b.image, 300)
    && 0 <= b.reviewScore <= 5
  }

  /** A string is not blank exactly when it holds a character above U+0020. */
  lemma NotBlankIffVisibleChar(s: string)
    ensures NotBlank(Some(s)) <==> exists k :: 0 <= k < |s| && !IsTrimmable(s[k])
  {
    TrimEmptyIffAllTrimmable(s);
  }

  // ------------------------------------------------------- attribute lookup

  /**
   * The type of each entity attribute a criteria query can name, by its Java name.
   * The date attribute is "publicationDate"; `Consts.PUBLICATION_DATE` holds the
   * SQL column name and is not an attribute name.
   */
  function AttributeKind(key: string): Option<Kind> {
    if key == "id" || key == Consts.NUMBER_PAGES || key == Consts.FK_ID_CATEGORY
      || key == Consts.FK_ID_AUTHOR || key == Consts.REVIEW_SCORE then Some(WholeKind)
    else if key == Consts.TITLE || key == Consts.DESCRIPTION || key == Consts.LANGUAGE
      || key == Consts.ISBN || key == Consts.IMAGE then Some(TextKind)
    else if key == "publicationDate" then Some(DayKind)
    else if key == Consts.PRICE then Some(DecimalKind)
    else if key == Consts.STATUS then Some(FlagKind)
    else None
  }

  predicate IsAttribute(key: string) {
    AttributeKind(key).Some?
  }

  function TextCell(s: Option<string>): Option<Value> {
    if s.Some? then Some(Text(s.value)) else None
  }

  function WholeCell(n: Option<int>): Option<Value> {
    if n.Some? then Some(Whole(n.value)) else None
  }

  /** `root.get(key)` evaluated on one book: the attribute's value, or `None` for SQL NULL. */
  function Column(b: BookRecord, key: string): (c: Option<Value>)
    requires IsAttribute(key)
    ensures c.Some? ==> AttributeKind(key) == Some(KindOf(c.value))
  {
    if key == "id" then WholeCell(b.id)
    else if key == Consts.TITLE then TextCell(b.title)
    else if key == Consts.DESCRIPTION then TextCell(b.description)
    else if key == "publicationDate" then
      (if b.publicationDate.Some? then Some(Day(b.publicationDate.value)) else None)
    else if key == Consts.LANGUAGE then TextCell(b.language)
    else if key == Consts.ISBN then TextCell(b.isbn)
    else if key == Consts.NUMBER_PAGES then Some(Whole(b.numberPages))
    else if key == Consts.PRICE then (if b.price.Some? then Some(Decimal(b.price.value)) else None)
    else if key == Consts.FK_ID_CATEGORY then WholeCell(b.categoryId)
    else if key == Consts.FK_ID_AUTHOR then WholeCell(b.authorId)
    else if key == Consts.IMAGE then TextCell(b.image)
    else if key == Consts.REVIEW_SCORE then Some(Whole(b.reviewScore))
    else Some(Flag(b.status))
  }

  // ---------------------------------------------------------- Book.update

  /** `update` unboxes these three into primitive fields, which throws on null. */
  predicate Unboxable(dto: BookDto) {
    dto.numberPages.Some? && dto.reviewScore.Some? && dto.status.Some?
  }

  /** The state `Book.update(dto)` leaves behind when it completes. */
  function Overwritten(b: BookRecord, dto: BookDto): (r: BookRecord)
    requires Unboxable(dto)
    ensures r.id == b.id
  {
    BookRecord(b.id, dto.title, dto.description, dto.publicationDate, dto.language, dto.isbn,
      dto.numberPages.value, dto.price, dto.categoryId, dto.authorId, dto.image,
      dto.reviewScore.value, dto.status.value)
  }

  /** `update` keeps nothing of the old book but its id. */
  lemma OverwrittenForgetsOldState(b1: BookRecord, b2: BookRecord, dto: BookDto)
    requires Unboxable(dto) && b1.id == b2.id
    ensures Overwritten(b1, dto) == Overwritten(b2, dto)
  {
  }

  /** Applying `update` twice with the same request is the same as applying it once. */
  lemma OverwrittenIdempotent(b: BookRecord, dto: BookDto)
    requires Unboxable(dto)
    ensures Overwritten(Overwritten(b, dto), dto) == Overwritten(b, dto)
  {
  }

  /** A null text field in the request clears the book's field. */
  lemma OverwrittenClearsNulls(b: BookRecord, dto: BookDto)
    requires Unboxable(dto)
    ensures dto.title.None? ==> Overwritten(b, dto).title.None?
    ensures dto.description.None? ==> Overwritten(b, dto).description.None?
    ensures dto.isbn.None? ==> Overwritten(b, dto).isbn.None?
    ensures dto.title.None? && b.title.Some? ==> Overwritten(b, dto) != b
  {
  }

  /** A JPA entity object: mutable fields with setters. */
  class Book {
    var id: Option<int>
    var title: Option<string>
    var description: Option<string>
    var publicationDate: Option<LocalDate>
    var language: Option<string>
    var isbn: Option<string>
    var numberPages: int
    var price: Option<BigDecimal>
    var categoryId: Option<int>
    var authorId: Option<int>
    var image: Option<string>
    var reviewScore: int
    var status: bool

    /** The current state of the object. */
    function Value(): BookRecord
      reads this
    {
      BookRecord(id, title, description, publicationDate, language, isbn, numberPages,
        price, categoryId, authorId, image, reviewScore, status)
    }

    /** The all-arguments constructor (`@AllArgsConstructor`, also used by the builder). */
    constructor (r: BookRecord)
      ensures Value() == r
    {
      id, title, description, publicationDate := r.id, r.title, r.description, r.publicationDate;
      language, isbn, numberPages, price := r.language, r.isbn, r.numberPages, r.price;
      categoryId, authorId, image := r.categoryId, r.authorId, r.image;
      reviewScore, status := r.reviewScore, r.status;
    }

    /**
     * `update(dto)`: assigns the twelve non-id fields in declaration order.
     * `threw` reports the NullPointerException raised when a null
     * `numberPages`, `reviewScore` or `status` is unboxed; the assignments made
     * before that point stay in effect.
     */
    method Update(dto: BookDto) returns (threw: bool)
      modifies this
      ensures threw <==> !Unboxable(dto)
      ensures !threw ==> Value() == Overwritten(old(Value()), dto)
      ensures dto.numberPages.None? ==>
        Value() == old(Value()).(title := dto.title, description := dto.description,
          publicationDate := dto.publicationDate, language := dto.language, isbn := dto.isbn)
      ensures dto.numberPages.Some? && dto.reviewScore.None? ==>
        Value() == old(Value()).(title := dto.title, description := dto.description,
          publicationDate := dto.publicationDate, language := dto.language, isbn := dto.isbn,
          numberPages := dto.numberPages.value, price := dto.price, categoryId := dto.categoryId,
          authorId := dto.authorId, image := dto.image)
      ensures dto.numberPages.Some? && dto.reviewScore.Some? && dto.status.None? ==>
        Value() == Overwritten(old(Value()), dto.(status := Some(old(status))))
    {
      title := dto.title;
      description := dto.description;
      publicationDate := dto.publicationDate;
      language := dto.language;
      isbn := dto.isbn;
      if dto.numberPages.None? {
        return true;
      }
      numberPages := dto.numberPages.value;
      price := dto.price;
      categoryId := dto.categoryId;
      authorId := dto.authorId;
      image := dto.image;
      if dto.reviewScore.None? {
        return true;
      }
      reviewScore := dto.reviewScore.value;
      if dto.status.None? {
        return true;
      }
      status := dto.status.value;
      threw := false;
    }
  }
}
