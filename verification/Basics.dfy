/** Values and small functions used by several of the other modules. */
module Basics {

  datatype Option<+T> = None | Some(value: T) {
    predicate IsFailure() {
      None?
    }

    function PropagateFailure<U>(): Option<U>
      requires None?
    {
      None
    }

    function Extract(): T
      requires Some?
    {
      value
    }
  }

  /** A point of the plane, in metres. */
  datatype Position = Position(x: real, y: real)

  predicate NoDuplicates<T(==)>(s: seq<T>) {
    forall i, j :: 0 <= i < j < |s| ==> s[i] != s[j]
  }

  function Members<T>(s: seq<T>): set<T> {
    set x | x in s
  }

  /** Removes one newline character at the end, where a `$` in a pattern also matches. */
  function StripLineEnd(s: string): string {
    if s != "" && s[|s|-1] == '\n' then s[..|s|-1] else s
  }
}
