/** JSON-like document trees as the engine sees them. */
module Values {

  /** Scalars are never inspected by the engine; they are carried as they are. */
  datatype Primitive = Bool(b: bool) | Num(n: int) | Str(s: string)

  /** A document value. `Undefined` is JavaScript's `undefined`: a missing
      property, an array hole, or an explicit `undefined` (the model does not
      tell a hole from an explicit `undefined`). */
  datatype Value =
    | Undefined
    | Null
    | Prim(p: Primitive)
    | Obj(fields: map<string, Value>)
    | Arr(elems: seq<Value>)
  {
    predicate IsContainer() {
      Obj? || Arr?
    }
  }
}
