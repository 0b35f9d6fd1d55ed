/** The Python values that cross the wire (pickled lists and tuples of
    strings and integers). Encoders produce them; decoders inspect them and
    fail where the Python code would raise. */
module Wire {
  datatype Value =
    | Int(i: int)
    | Str(s: string)
    | List(items: seq<Value>)
    | Tuple(items: seq<Value>)
}
