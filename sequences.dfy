/** Facts about sequence concatenation that the drawing logs rely on. */
module Sequences {

  /** Sequence concatenation associates. */
  lemma AppendAssociates<T>(a: seq<T>, b: seq<T>, c: seq<T>)
    ensures (a + b) + c == a + (b + c)
  {
  }

  /**
   * A log that held base + sofar before and gained more since holds
   * base + (sofar + more): the accumulator form the loop invariants use.
   */
  lemma Extend<T>(base: seq<T>, sofar: seq<T>, more: seq<T>, before: seq<T>, after: seq<T>)
    requires before == base + sofar
    requires after == before + more
    ensures after == base + (sofar + more)
  {
    AppendAssociates(base, sofar, more);
  }
}
