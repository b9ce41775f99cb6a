/** JSON-like inventory and template values.

  Python dictionaries are maps (their order is never observed), lists keep their order, and
  a scalar is compared by plain equality. */
module Values {
  datatype Scalar = Null | Bool(b: bool) | Number(n: real) | Text(s: string)

  datatype Value =
    | Object(fields: map<string, Value>)
    | Array(items: seq<Value>)
    | Leaf(scalar: Scalar)
}
