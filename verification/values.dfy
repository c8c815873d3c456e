/** The JavaScript values the command-line roller passes around: a rolled
    row is an object of strings annotated with numbers, nested results are
    objects or arrays of them. */
module Values {
  import opened Strings
  import opened Records

  datatype Value =
    | Str(s: string)
    | Num(n: int)
    | Arr(items: seq<Value>)
    | Obj(fields: Record<Value>)

  /** A row of strings as an object. */
  function RowObject(row: Record<string>): (fields: Record<Value>)
    ensures |fields| == |row|
    ensures forall i | 0 <= i < |row| :: fields[i] == (row[i].0, Str(row[i].1))
  {
    seq(|row|, i requires 0 <= i < |row| => (row[i].0, Str(row[i].1)))
  }

  /** The fields of `{ ...array }`: the index of each element, as text, is its key. */
  function IndexFields(items: seq<Value>): (fields: Record<Value>)
    ensures |fields| == |items|
    ensures forall i | 0 <= i < |items| :: fields[i] == (NatToString(i), items[i])
  {
    seq(|items|, i requires 0 <= i < |items| => (NatToString(i), items[i]))
  }

  /** `String(v)` of a value that is not an object. */
  function Text(v: Value): string
    requires v.Str? || v.Num?
  {
    if v.Str? then v.s else IntToString(v.n)
  }
}
