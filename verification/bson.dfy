/**
 * The slice of BSON the parameter commands look at: an element's type and value,
 * and a command object as its ordered list of fields.
 */
module Bson {
  import opened Wrappers

  /** A C++ `int`. */
  type Int32 = x: int | -0x8000_0000 <= x < 0x8000_0000

  /**
   * EInt is a NumberInt. EObject stands for every element for which `isABSONObj()`
   * holds: an embedded object or an array, both read as their list of fields (an
   * array's field names are its indexes). EOther stands for every remaining type;
   * the numbers among them (doubles, longs, decimals), which the server's coercion
   * would convert, are not distinguished in this model.
   */
  datatype Element =
    | EBool(b: bool)
    | EInt(i: Int32)
    | EString(s: string)
    | EObject(fields: seq<Field>)
    | EOther

  datatype Field = Field(name: string, value: Element)

  /**
   * `BSONElement::coerce(int*)` restricted to the elements of this model: a 32-bit
   * int converts and every other element refuses. The server also coerces doubles,
   * longs and decimals; those are not part of this model.
   */
  function CoerceInt(e: Element): (r: Option<Int32>)
    ensures r.Some? <==> e.EInt?
    ensures r.Some? ==> r.value == e.i
  {
    match e
    case EInt(i) => Some(i)
    case _ => None
  }

  /** `BSONObj::hasElement(name)`. */
  predicate HasElement(obj: seq<Field>, name: string) {
    exists i :: 0 <= i < |obj| && obj[i].name == name
  }
}
