/** Sequences of batches: the records of all batches, in order. */
module Seqs {

  /** The elements of the batches, batch after batch. */
  function Concat<T>(batches: seq<seq<T>>): seq<T> {
    if batches == [] then [] else Concat(batches[..|batches| - 1]) + batches[|batches| - 1]
  }

  lemma {:induction false} ConcatAppend<T>(a: seq<seq<T>>, b: seq<seq<T>>)
    ensures Concat(a + b) == Concat(a) + Concat(b)
    decreases |b|
  {
    if b != [] {
      var k := |b| - 1;
      assert (a + b)[..|a + b| - 1] == a + b[..k];
      assert (a + b)[|a + b| - 1] == b[k];
      ConcatAppend(a, b[..k]);
      calc {
        Concat(a + b);
        Concat(a + b[..k]) + b[k];
        Concat(a) + Concat(b[..k]) + b[k];
        Concat(a) + (Concat(b[..k]) + b[k]);
        Concat(a) + Concat(b);
      }
    } else {
      assert a + b == a;
    }
  }
}
