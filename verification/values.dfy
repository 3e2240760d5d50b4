/** Values shared by the batch scripts: the Python values a reply is parsed
    into, what `ast.literal_eval` does with a reply, and the ERROR record. */
module Values {

  datatype Option<+T> = None | Some(value: T)

  /** A Python literal value as `ast.literal_eval` produces it: a string, an
      integer, a list or tuple of values, or any other scalar (float, bool,
      None), which is neither iterable nor equal to a string. */
  datatype Value = Str(s: string) | Int(i: int) | Items(elems: seq<Value>) | Scalar

  /** What `ast.literal_eval` does with a reply: it yields a list literal,
      raises SyntaxError, or raises any other exception (ValueError, ...). */
  datatype Literal = Parsed(items: seq<Value>) | SyntaxErr | OtherErr

  /** One output row of a classification script, field by field. */
  type Record = seq<Value>

  /** The marker put in every free-text field of an error record. */
  const ERROR: string := "ERROR"

  /** The classification value of an error record. */
  const SENTINEL: int := -9999

  function Repeat<T>(x: T, n: nat): (r: seq<T>)
    ensures |r| == n && forall i :: 0 <= i < n ==> r[i] == x
  {
    seq(n, _ => x)
  }

  /** `k` 'ERROR' fields followed by the sentinel flag. */
  function ErrorFields(k: nat): (r: Record)
    ensures |r| == k + 1
    ensures forall i :: 0 <= i < k ==> r[i] == Str(ERROR)
    ensures r[k] == Int(SENTINEL)
  {
    Repeat(Str(ERROR), k) + [Int(SENTINEL)]
  }
}
