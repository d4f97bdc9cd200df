/** The Java value types the model needs, reduced to what the service observes. */
module JavaTypes {
  /** A nullable Java reference: `None` stands for `null`. */
  datatype Option<+T> = None | Some(value: T)

  /** `java.time.LocalDate`, kept opaque: only equality of dates is observed. */
  datatype LocalDate = LocalDate(epochDay: int)

  /** `java.math.BigDecimal` as an exact number; scale and precision are not modelled. */
  type BigDecimal = real
}
