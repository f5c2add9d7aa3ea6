/** JSON values as Python reads them: dictionaries, lists and scalars. */
module Json {
  datatype Field = Field(key: string, value: Json)

  // Fields keep their insertion order.
  datatype Json =
    | Null
    | Bool(b: bool)
    | Num(n: int)
    | Str(s: string)
    | Arr(items: seq<Json>)
    | Obj(fields: seq<Field>)
}
