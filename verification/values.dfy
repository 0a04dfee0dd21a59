/** Attribute values. An attribute holds a Java `Object`: either `null` or a
    value object that compares with `equals`. */
module Values {

  /** The values an attribute may hold; `Null` stands for the Java `null`. */
  datatype Value = Null | Text(text: string) | Number(number: int) | Flag(flag: bool)

  /** `equals` of the non-null value classes: a value only equals a value of
      its own class with the same content. */
  predicate JavaEquals(a: Value, b: Value)
    requires !a.Null? && !b.Null?
  {
    match (a, b)
    case (Text(x), Text(y)) => x == y
    case (Number(x), Number(y)) => x == y
    case (Flag(x), Flag(y)) => x == y
    case _ => false
  }

  /** `java.util.Objects.equals`: null-safe equality. Two nulls are equal,
      null never equals a non-null value, and otherwise `equals` decides;
      for attribute values this is exactly value equality. */
  function ObjectsEquals(a: Value, b: Value): (r: bool)
    ensures r <==> a == b
  {
    if a.Null? then b.Null?
    else !b.Null? && JavaEquals(a, b)
  }
}
