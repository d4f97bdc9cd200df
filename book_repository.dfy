/**
 * `BookRepository.java`: the storage port over a map from id to stored book,
 * and `search`, which turns four optional criteria into a criteria query.
 */
module Repository {
  import opened JavaTypes
  import opened JavaText
  import opened SqlLike
  import opened SearchTypes
  import opened BookModel
  import opened Criteria
  import Consts

  // ------------------------------------------------- criteria -> statements

  /** Position of a criterion's key in the order title, language, categoryId, status. */
  function KeyRank(key: string): int {
    if key == Consts.TITLE then 0
    else if key == Consts.LANGUAGE then 1
    else if key == Consts.FK_ID_CATEGORY then 2
    else if key == Consts.STATUS then 3
    else 4
  }

  function TitleStatement(title: string): (st: SearchStatement)
    ensures Supported(st) && KeyRank(st.key) == 0
  {
    SearchStatement(Consts.TITLE, Text(title), Match)
  }

  function LanguageStatement(language: string): (st: SearchStatement)
    ensures Supported(st) && KeyRank(st.key) == 1
  {
    SearchStatement(Consts.LANGUAGE, Text(language), Equal)
  }

  function CategoryStatement(categoryId: int): (st: SearchStatement)
    ensures Supported(st) && KeyRank(st.key) == 2
  {
    SearchStatement(Consts.FK_ID_CATEGORY, Whole(categoryId), Equal)
  }

  function StatusStatement(status: bool): (st: SearchStatement)
    ensures Supported(st) && KeyRank(st.key) == 3
  {
    SearchStatement(Consts.STATUS, Flag(status), Equal)
  }

  /** The statements one criterion contributes: its own when present, none when absent. */
  function TitlePart(title: Option<string>): (r: seq<SearchStatement>)
    ensures AllSupported(r)
  {
    if HasLength(title) then [TitleStatement(title.value)] else []
  }

  function LanguagePart(language: Option<string>): (r: seq<SearchStatement>)
    ensures AllSupported(r)
  {
    if HasLength(language) then [LanguageStatement(language.value)] else []
  }

  function CategoryPart(categoryId: Option<int>): (r: seq<SearchStatement>)
    ensures AllSupported(r)
  {
    if categoryId.Some? then [CategoryStatement(categoryId.value)] else []
  }

  function StatusPart(status: Option<bool>): (r: seq<SearchStatement>)
    ensures AllSupported(r)
  {
    if status.Some? then [StatusStatement(status.value)] else []
  }

  /** The statement list `search` builds: one statement per present criterion, in a fixed order. */
  function SearchStatements(title: Option<string>, language: Option<string>,
                            categoryId: Option<int>, status: Option<bool>): (r: seq<SearchStatement>)
    ensures AllSupported(r)
  {
    TitlePart(title) + LanguagePart(language) + CategoryPart(categoryId) + StatusPart(status)
  }

  /** How many of the four criteria are present (a blank string is present, an empty one is not). */
  function PresentCount(title: Option<string>, language: Option<string>,
                        categoryId: Option<int>, status: Option<bool>): (n: nat)
    ensures n <= 4
  {
    (if HasLength(title) then 1 else 0) + (if HasLength(language) then 1 else 0)
    + (if categoryId.Some? then 1 else 0) + (if status.Some? then 1 else 0)
  }

  /** Absent criteria contribute nothing: one statement per present criterion. */
  lemma SearchStatementCount(title: Option<string>, language: Option<string>,
                             categoryId: Option<int>, status: Option<bool>)
    ensures |SearchStatements(title, language, categoryId, status)| == PresentCount(title, language, categoryId, status)
  {
  }

  /** Statements come in the fixed order title, language, categoryId, status, at most one of each. */
  lemma SearchStatementOrder(title: Option<string>, language: Option<string>,
                             categoryId: Option<int>, status: Option<bool>)
    ensures var r := SearchStatements(title, language, categoryId, status);
      forall i, j :: 0 <= i < j < |r| ==> KeyRank(r[i].key) < KeyRank(r[j].key) < 4
  {
  }

  /** The built statements are exactly the statements of the present criteria; the title is passed as given. */
  lemma SearchStatementsMembers(title: Option<string>, language: Option<string>,
                                categoryId: Option<int>, status: Option<bool>)
    ensures var r := SearchStatements(title, language, categoryId, status);
      forall st :: st in r <==>
        || (HasLength(title) && st == TitleStatement(title.value))
        || (HasLength(language) && st == LanguageStatement(language.value))
        || (categoryId.Some? && st == CategoryStatement(categoryId.value))
        || (status.Some? && st == StatusStatement(status.value))
  {
    var t, l, c, s := TitlePart(title), LanguagePart(language), CategoryPart(categoryId), StatusPart(status);
    forall st ensures st in t + l + c + s <==> st in t || st in l || st in c || st in s {
    }
  }

  /** Each criterion yields a statement under its key exactly when it is present. */
  lemma SearchStatementsExact(title: Option<string>, language: Option<string>,
                              categoryId: Option<int>, status: Option<bool>)
    ensures var r := SearchStatements(title, language, categoryId, status);
      && (HasLength(title) <==> exists st :: st in r && st.key == Consts.TITLE)
      && (HasLength(language) <==> exists st :: st in r && st.key == Consts.LANGUAGE)
      && (categoryId.Some? <==> exists st :: st in r && st.key == Consts.FK_ID_CATEGORY)
      && (status.Some? <==> exists st :: st in r && st.key == Consts.STATUS)
  {
    SearchStatementsMembers(title, language, categoryId, status);
    assert KeyRank(Consts.TITLE) == 0 && KeyRank(Consts.LANGUAGE) == 1;
    assert KeyRank(Consts.FK_ID_CATEGORY) == 2 && KeyRank(Consts.STATUS) == 3;
  }

  /** With no criterion present the statement list is empty. */
  lemma NoCriteriaNoStatements(title: Option<string>, language: Option<string>,
                               categoryId: Option<int>, status: Option<bool>)
    requires !HasLength(title) && !HasLength(language) && categoryId.None? && status.None?
    ensures SearchStatements(title, language, categoryId, status) == []
  {
  }

  /** The condition a single present statement puts on a book. */
  lemma SingleStatement(st: SearchStatement, b: BookRecord)
    requires Supported(st)
    ensures AllSupported([st]) && (Matches([st], b) <==> Holds(st, b))
  {
  }

  /** The title criterion: absent, no condition; present, a case-insensitive `LIKE %title%` on a non-null title. */
  lemma TitlePartMeaning(title: Option<string>, b: BookRecord)
    ensures AllSupported(TitlePart(title))
    ensures Matches(TitlePart(title), b) <==>
      (HasLength(title) ==> b.title.Some? && Like(Lower(b.title.value), "%" + Lower(title.value) + "%"))
  {
    if HasLength(title) {
      assert Column(b, Consts.TITLE) == TextCell(b.title);
    }
  }

  /** The language criterion: absent, no condition; present, equality with a non-null language. */
  lemma LanguagePartMeaning(language: Option<string>, b: BookRecord)
    ensures AllSupported(LanguagePart(language))
    ensures Matches(LanguagePart(language), b) <==> (HasLength(language) ==> b.language == language)
  {
    if HasLength(language) {
      assert Column(b, Consts.LANGUAGE) == TextCell(b.language);
    }
  }

  /** The category criterion: absent, no condition; present, equality with a non-null category id. */
  lemma CategoryPartMeaning(categoryId: Option<int>, b: BookRecord)
    ensures AllSupported(CategoryPart(categoryId))
    ensures Matches(CategoryPart(categoryId), b) <==> (categoryId.Some? ==> b.categoryId == categoryId)
  {
    if categoryId.Some? {
      assert Column(b, Consts.FK_ID_CATEGORY) == WholeCell(b.categoryId);
    }
  }

  /** The status criterion: absent, no condition; present, equality with the status flag. */
  lemma StatusPartMeaning(status: Option<bool>, b: BookRecord)
    ensures AllSupported(StatusPart(status))
    ensures Matches(StatusPart(status), b) <==> (status.Some? ==> b.status == status.value)
  {
    if status.Some? {
      assert Column(b, Consts.STATUS) == Some(Flag(b.status));
    }
  }

  /** The built statements hold iff each criterion's part holds. */
  lemma SearchStatementsSplit(title: Option<string>, language: Option<string>,
                              categoryId: Option<int>, status: Option<bool>, b: BookRecord)
    ensures Matches(SearchStatements(title, language, categoryId, status), b) <==>
      Matches(TitlePart(title), b) && Matches(LanguagePart(language), b)
      && Matches(CategoryPart(categoryId), b) && Matches(StatusPart(status), b)
  {
    TitlePartMeaning(title, b);
    LanguagePartMeaning(language, b);
    CategoryPartMeaning(categoryId, b);
    StatusPartMeaning(status, b);
    MatchesConcat(TitlePart(title), LanguagePart(language), b);
    MatchesConcat(TitlePart(title) + LanguagePart(language), CategoryPart(categoryId), b);
    MatchesConcat(TitlePart(title) + LanguagePart(language) + CategoryPart(categoryId), StatusPart(status), b);
  }

  /**
   * A book satisfies the built statements iff it satisfies every present
   * criterion: the title as a case-insensitive `LIKE %title%`, the others by
   * equality.
   */
  lemma SearchMeaning(title: Option<string>, language: Option<string>,
                      categoryId: Option<int>, status: Option<bool>, b: BookRecord)
    ensures Matches(SearchStatements(title, language, categoryId, status), b) <==>
      && (HasLength(title) ==>
            b.title.Some? && Like(Lower(b.title.value), "%" + Lower(title.value) + "%"))
      && (HasLength(language) ==> b.language == language)
      && (categoryId.Some? ==> b.categoryId == categoryId)
      && (status.Some? ==> b.status == status.value)
  {
    SearchStatementsSplit(title, language, categoryId, status, b);
    TitlePartMeaning(title, b);
    LanguagePartMeaning(language, b);
    CategoryPartMeaning(categoryId, b);
    StatusPartMeaning(status, b);
  }

  /** A wildcard-free title criterion is case-insensitive substring containment. */
  lemma SearchTitleIsContainment(title: string, b: BookRecord)
    requires |title| > 0 && NoWildcards(title)
    ensures Matches(SearchStatements(Some(title), None, None, None), b) <==>
      b.title.Some? && Contains(Lower(b.title.value), Lower(title))
  {
    SearchMeaning(Some(title), None, None, None, b);
    LowerKeepsWildcards(title);
    if b.title.Some? {
      MatchPatternIsContainment(Lower(b.title.value), Lower(title));
    }
  }

  // ------------------------------------------------------------- queries

  /** `findAll(spec)`: the stored books the statements' predicate accepts. */
  function Matching(books: map<int, BookRecord>, stmts: seq<SearchStatement>): set<BookRecord>
    requires AllSupported(stmts)
  {
    set b | b in books.Values && Matches(stmts, b)
  }

  /** A book is returned iff it is stored and satisfies every statement. */
  lemma MatchingIffEvery(books: map<int, BookRecord>, stmts: seq<SearchStatement>, b: BookRecord)
    requires AllSupported(stmts)
    ensures b in Matching(books, stmts) <==>
      b in books.Values && forall i :: 0 <= i < |stmts| ==> Holds(stmts[i], b)
  {
    MatchesIffEvery(stmts, b);
  }

  /** An empty specification returns the whole store. */
  lemma MatchingEmptySpec(books: map<int, BookRecord>)
    ensures Matching(books, []) == books.Values
  {
  }

  /** Adding a statement to a specification can only remove books from the result. */
  lemma MatchingNarrows(books: map<int, BookRecord>, stmts: seq<SearchStatement>, st: SearchStatement)
    requires AllSupported(stmts) && Supported(st)
    ensures AllSupported(stmts + [st])
    ensures Matching(books, stmts + [st]) <= Matching(books, stmts)
  {
    forall b | b in Matching(books, stmts + [st]) ensures b in Matching(books, stmts) {
      AddOnlyNarrows(stmts, st, b);
    }
  }

  /** `search` with no criterion present returns every stored book. */
  lemma SearchWithoutCriteriaIsAll(books: map<int, BookRecord>, title: Option<string>, language: Option<string>)
    requires !HasLength(title) && !HasLength(language)
    ensures Matching(books, SearchStatements(title, language, None, None)) == books.Values
  {
    NoCriteriaNoStatements(title, language, None, None);
  }

  /** A store is empty exactly when it holds no book. */
  lemma EmptyStoreIffNoBooks(books: map<int, BookRecord>)
    ensures books.Values == {} <==> books == map[]
  {
    assert forall k :: k in books ==> books[k] in books.Values;
    if books.Values == {} {
      assert books.Keys == {};
    }
  }

  // ------------------------------------------------------------ the store

  /** The repository over an abstract store of books keyed by id. */
  class BookRepository {
    var books: map<int, BookRecord>
    /** Stand-in for the database's identity generator. */
    var nextId: int

    /** Every stored book carries its own key as id, and the generator is past every key. */
    ghost predicate Valid()
      reads this
    {
      forall k :: k in books ==> books[k].id == Some(k) && k < nextId
    }

    constructor ()
      ensures Valid() && books == map[]
    {
      books := map[];
      nextId := 1;
    }

    /** `getBooks`: every stored book. */
    method GetBooks() returns (r: set<BookRecord>)
      ensures r == books.Values
    {
      r := books.Values;
    }

    /** `getById`: a fresh entity object holding the stored book, or null when the key is absent. */
    method GetById(id: int) returns (b: Book?)
      ensures b == null <==> id !in books
      ensures b != null ==> fresh(b) && b.Value() == books[id]
    {
      if id in books {
        b := new Book(books[id]);
      } else {
        b := null;
      }
    }

    /**
     * `save`: a book whose id is stored overwrites that entry; any other book
     * is inserted under a newly generated id, which is written back into it.
     */
    method Save(book: Book) returns (saved: Book)
      requires Valid()
      modifies this, book
      ensures Valid() && saved == book
      ensures old(book.id).Some? && old(book.id).value in old(books) ==>
        book.Value() == old(book.Value())
        && books == old(books)[old(book.id).value := book.Value()]
        && nextId == old(nextId)
      ensures !(old(book.id).Some? && old(book.id).value in old(books)) ==>
        book.Value() == old(book.Value()).(id := Some(old(nextId)))
        && books == old(books)[old(nextId) := book.Value()]
        && nextId == old(nextId) + 1
    {
      if !(book.id.Some? && book.id.value in books) {
        book.id := Some(nextId);
        nextId := nextId + 1;
      }
      books := books[book.id.value := book.Value()];
      saved := book;
    }

    /** `delete`: removes the entry under the book's id; a book without id, or not stored, changes nothing. */
    method Delete(book: Book)
      requires Valid()
      modifies this
      ensures Valid() && nextId == old(nextId)
      ensures books == if book.id.Some? then old(books) - {book.id.value} else old(books)
    {
      if book.id.Some? {
        books := books - {book.id.value};
      }
    }

    /**
     * `search`: builds the criteria by conditional `add` calls, then runs the
     * query over the store.
     */
    method Search(title: Option<string>, language: Option<string>,
                  categoryId: Option<int>, status: Option<bool>) returns (r: set<BookRecord>)
      ensures r == Matching(books, SearchStatements(title, language, categoryId, status))
    {
      var spec := new SearchCriteria();
      if HasLength(title) {
        spec.Add(SearchStatement(Consts.TITLE, Text(title.value), Match));
      }
      assert spec.list == TitlePart(title);
      if HasLength(language) {
        spec.Add(SearchStatement(Consts.LANGUAGE, Text(language.value), Equal));
      }
      assert spec.list == TitlePart(title) + LanguagePart(language);
      if categoryId.Some? {
        spec.Add(SearchStatement(Consts.FK_ID_CATEGORY, Whole(categoryId.value), Equal));
      }
      assert spec.list == TitlePart(title) + LanguagePart(language) + CategoryPart(categoryId);
      if status.Some? {
        spec.Add(SearchStatement(Consts.STATUS, Flag(status.value), Equal));
      }
      assert spec.list == SearchStatements(title, language, categoryId, status);
      r := Matching(books, spec.list);
    }
  }
}
