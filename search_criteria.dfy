/**
 * `SearchCriteria.java`: an append-only list of statements whose predicate is
 * the conjunction of one condition per statement. The conditions are given
 * their in-memory meaning on one book: a book is returned by a query over the
 * criteria exactly when this predicate is true of it.
 */
module Criteria {
  import opened JavaTypes
  import opened JavaText
  import opened SqlLike
  import opened SearchTypes
  import opened BookModel

  /**
   * The statements this model gives a meaning to: equality tests whose operand
   * has the attribute's type, and `LIKE` tests on a text attribute with a text
   * operand, on an attribute the entity has.
   */
  predicate Supported(st: SearchStatement) {
    match st.operation
    case Equal => AttributeKind(st.key) == Some(KindOf(st.value))
    case NotEqual => AttributeKind(st.key) == Some(KindOf(st.value))
    case Match => AttributeKind(st.key) == Some(TextKind) && st.value.Text?
    case MatchEnd => AttributeKind(st.key) == Some(TextKind) && st.value.Text?
    case _ => false
  }

  predicate AllSupported(stmts: seq<SearchStatement>) {
    forall i :: 0 <= i < |stmts| ==> Supported(stmts[i])
  }

  /**
   * The condition one statement puts on a book. A NULL attribute satisfies no
   * condition, as in a SQL `WHERE` clause made only of conjunctions.
   */
  function Holds(st: SearchStatement, b: BookRecord): bool
    requires Supported(st)
  {
    var cell := Column(b, st.key);
    if st.operation == Equal then cell == Some(st.value)
    else if st.operation == NotEqual then cell.Some? && cell.value != st.value
    else if st.operation == Match then
      cell.Some? && Like(Lower(cell.value.text), "%" + Lower(st.value.text) + "%")
    else
      cell.Some? && Like(Lower(cell.value.text), Lower(st.value.text) + "%")
  }

  /** `builder.and(predicates)`: the conjunction of every statement's condition. */
  function Matches(stmts: seq<SearchStatement>, b: BookRecord): bool
    requires AllSupported(stmts)
  {
    stmts == [] || (Holds(stmts[0], b) && Matches(stmts[1..], b))
  }

  /** A book matches iff it satisfies every statement; the empty list matches every book. */
  lemma {:induction false} MatchesIffEvery(stmts: seq<SearchStatement>, b: BookRecord)
    requires AllSupported(stmts)
    ensures Matches(stmts, b) <==> forall i :: 0 <= i < |stmts| ==> Holds(stmts[i], b)
  {
    if stmts != [] {
      MatchesIffEvery(stmts[1..], b);
      forall i | 1 <= i < |stmts| ensures stmts[1..][i - 1] == stmts[i] { }
    }
  }

  /** Matching a concatenation is matching both parts. */
  lemma MatchesConcat(s: seq<SearchStatement>, t: seq<SearchStatement>, b: BookRecord)
    requires AllSupported(s) && AllSupported(t)
    ensures AllSupported(s + t)
    ensures Matches(s + t, b) <==> Matches(s, b) && Matches(t, b)
  {
    MatchesIffEvery(s, b);
    MatchesIffEvery(t, b);
    MatchesIffEvery(s + t, b);
    forall i | 0 <= i < |s| ensures (s + t)[i] == s[i] { }
    forall i | 0 <= i < |t| ensures (s + t)[|s| + i] == t[i] { }
  }

  /** Adding a statement can only shrink the set of matching books. */
  lemma AddOnlyNarrows(s: seq<SearchStatement>, st: SearchStatement, b: BookRecord)
    requires AllSupported(s) && Supported(st)
    ensures AllSupported(s + [st])
    ensures Matches(s + [st], b) <==> Matches(s, b) && Holds(st, b)
  {
    MatchesConcat(s, [st], b);
  }

  /** The order of the statements does not change which books match. */
  lemma MatchesPermutation(s: seq<SearchStatement>, t: seq<SearchStatement>, b: BookRecord)
    requires AllSupported(s) && AllSupported(t)
    requires multiset(s) == multiset(t)
    ensures Matches(s, b) == Matches(t, b)
  {
    MatchesIffEvery(s, b);
    MatchesIffEvery(t, b);
    forall i | 0 <= i < |s| ensures s[i] in t {
      assert s[i] in multiset(s);
    }
    forall i | 0 <= i < |t| ensures t[i] in s {
      assert t[i] in multiset(t);
    }
  }

  /** On a non-null attribute `EQUAL` and `NOT_EQUAL` on the same operand are complements. */
  lemma EqualNotEqualComplement(key: string, v: Value, b: BookRecord)
    requires AttributeKind(key) == Some(KindOf(v))
    requires Column(b, key).Some?
    ensures Holds(SearchStatement(key, v, Equal), b) <==> !Holds(SearchStatement(key, v, NotEqual), b)
  {
  }

  /** Without wildcards in the operand, `MATCH` is case-insensitive containment. */
  lemma MatchIsContainment(key: string, v: string, b: BookRecord)
    requires AttributeKind(key) == Some(TextKind)
    requires NoWildcards(v)
    ensures Holds(SearchStatement(key, Text(v), Match), b) <==>
      Column(b, key).Some? && Contains(Lower(Column(b, key).value.text), Lower(v))
  {
    LowerKeepsWildcards(v);
    var cell := Column(b, key);
    if cell.Some? {
      MatchPatternIsContainment(Lower(cell.value.text), Lower(v));
    }
  }

  /** Without wildcards in the operand, `MATCH_END` is a case-insensitive prefix test. */
  lemma MatchEndIsPrefix(key: string, v: string, b: BookRecord)
    requires AttributeKind(key) == Some(TextKind)
    requires NoWildcards(v)
    ensures Holds(SearchStatement(key, Text(v), MatchEnd), b) <==>
      Column(b, key).Some? && StartsWith(Lower(Column(b, key).value.text), Lower(v))
  {
    LowerKeepsWildcards(v);
    var cell := Column(b, key);
    if cell.Some? {
      MatchEndPatternIsPrefix(Lower(cell.value.text), Lower(v));
    }
  }

  /** `_` in a `MATCH` operand is not escaped: "a_c" matches the title "ABC", which does not contain it. */
  lemma UnderscoreIsWildcard(b: BookRecord)
    requires b.title == Some("ABC")
    ensures Holds(SearchStatement("title", Text("a_c"), Match), b)
    ensures !Contains(Lower("ABC"), "a_c")
  {
    assert Lower("ABC") == "abc";
    assert Lower("a_c") == "a_c";
    assert "%" + "a_c" + "%" == "%a_c%";
    UnderscoreMatchesAnyChar();
  }

  /** `SearchCriteria<Book>`: the statement list the repository fills before a query. */
  class SearchCriteria {
    var list: seq<SearchStatement>

    constructor ()
      ensures list == []
    {
      list := [];
    }

    /** `add`: appends at the end; earlier statements and their order are kept. */
    method Add(criteria: SearchStatement)
      modifies this
      ensures list == old(list) + [criteria]
    {
      list := list + [criteria];
    }

    /**
     * `toPredicate`, evaluated on one book: one condition per statement is
     * collected in order, then all of them are AND-joined.
     */
    method ToPredicate(b: BookRecord) returns (r: bool)
      requires AllSupported(list)
      ensures r == Matches(list, b)
    {
      var predicates: seq<bool> := [];
      for i := 0 to |list|
        invariant |predicates| == i
        invariant forall j :: 0 <= j < i ==> predicates[j] == Holds(list[j], b)
      {
        predicates := predicates + [Holds(list[i], b)];
      }
      r := forall j | 0 <= j < |predicates| :: predicates[j];
      MatchesIffEvery(list, b);
    }
  }
}
