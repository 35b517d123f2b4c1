/** Definitions shared by the models: optional values and a sequence fact. */
module Wrappers {
  /** Optional values, for Python's `None`-or-value arguments and results. */
  datatype Option<+T> = None | Some(value: T)

  /** Appending is associative; stated once so that callers need not re-derive it element by element. */
  lemma ConcatAssoc<T>(a: seq<T>, b: seq<T>, c: seq<T>)
    ensures a + b + c == a + (b + c)
  {
  }
}
