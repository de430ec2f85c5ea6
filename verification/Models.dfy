/** Records shared by several components. */
module Models {
  /** The two arms of a task. */
  datatype Mode = NoThink | Think

  datatype Interval = Interval(low: real, high: real)

  /** A JSON value; whole numbers are told from others. */
  datatype Json =
    | Null
    | Bool(b: bool)
    | Integer(i: int)
    | Number(r: real)
    | Str(s: string)
    | Arr(items: seq<Json>)
    | Obj(fields: map<string, Json>)
}
