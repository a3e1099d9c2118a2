/** JSON-compatible wire values. Objects keep their fields in order, as a
    JavaScript object keeps its keys in insertion order. */
module Json {

  datatype Json =
    | Null
    | Bool(b: bool)
    | Num(n: int)
    | Str(s: string)
    | Arr(items: seq<Json>)
    | Obj(fields: seq<Field>)

  datatype Field = Field(key: string, value: Json)

  /** Index of the first field named `key`, or -1 when the object has none
      (a property read on a JavaScript object). */
  function IndexOf(fields: seq<Field>, key: string): (i: int)
    ensures -1 <= i < |fields|
    ensures i >= 0 ==> fields[i].key == key
    ensures forall j | 0 <= j < |fields| && (i < 0 || j < i) :: fields[j].key != key
  {
    if fields == [] then -1
    else if fields[0].key == key then 0
    else
      var j := IndexOf(fields[1..], key);
      if j < 0 then -1 else j + 1
  }
}
