/**
 * The values the adapters hand out and the text `JSON.stringify` leaves in
 * string storage. The encoding is abstract: a well-formed text is identified
 * with the value it encodes, so decoding it gives that value back exactly.
 */
module Json {
  import opened Wrappers

  /** A JavaScript value as the adapters see it (floating point is not modelled). */
  datatype Value = Undefined | Null | Bool(b: bool) | Num(n: int) | Str(s: string)

  /**
   * A stored string: the encoding of a value, or text `JSON.parse` rejects.
   * `Encoding(Undefined)` stands for no string; `Stringify` never yields it.
   */
  datatype Text = Encoding(v: Value) | Malformed(raw: string)

  /**
   * `JSON.stringify`, followed by the string conversion `setItem` applies:
   * `undefined` has no JSON text, so the stored string is "undefined", which
   * does not parse.
   */
  function Stringify(v: Value): (t: Text)
    ensures t.Malformed? <==> v == Undefined
  {
    if v == Undefined then Malformed("undefined") else Encoding(v)
  }

  /** `JSON.parse`: `None` stands for the exception it throws. */
  function Parse(t: Text): (r: Option<Value>)
    ensures r.Some? ==> r.value != Undefined && Stringify(r.value) == t
    ensures t.Malformed? ==> r == None
  {
    match t
    case Encoding(v) => if v == Undefined then None else Some(v)
    case Malformed(_) => None
  }

  /** Every value but `undefined` survives a round trip through its stored text. */
  lemma ParseStringify(v: Value)
    ensures Parse(Stringify(v)) == if v == Undefined then None else Some(v)
  {
  }
}
