/** `SearchOperation.java` and `SearchStatement.java`. */
module SearchTypes {
  import opened JavaTypes

  /** The eight operation tags, in declaration order. */
  datatype SearchOperation =
    | GreaterThan
    | LessThan
    | GreaterThanEqual
    | LessThanEqual
    | NotEqual
    | Equal
    | Match
    | MatchEnd

  /** The boxed Java values a statement can compare against (`Object value`). */
  datatype Value =
    | Text(text: string)
    | Whole(number: int)
    | Flag(flag: bool)
    | Day(date: LocalDate)
    | Decimal(amount: BigDecimal)

  /** The Java type of a value or of an entity attribute. */
  datatype Kind = TextKind | WholeKind | FlagKind | DayKind | DecimalKind

  function KindOf(v: Value): (k: Kind)
    ensures k == TextKind <==> v.Text?
  {
    match v
    case Text(_) => TextKind
    case Whole(_) => WholeKind
    case Flag(_) => FlagKind
    case Day(_) => DayKind
    case Decimal(_) => DecimalKind
  }

  /** One condition: the attribute named `key`, compared by `operation` against `value`. */
  datatype SearchStatement = SearchStatement(key: string, value: Value, operation: SearchOperation)
}
