/** Rearrangements of sums and concatenations that several components need. */
module Collections {

  lemma AddLast<T>(a: multiset<T>, b: multiset<T>, c: multiset<T>, d: multiset<T>, last: multiset<T>)
    requires a + b == c + d
    ensures (a + last) + b == (c + last) + d
  {
    assert (a + last) + b == (a + b) + last == (c + d) + last == (c + last) + d;
  }

  /**
   One step and the rest of a run of a queue: `q` waits first, `mid` after the step, `left` at the
   end; `sent` and `rest` go in, `got` and `done` come out.
   */
  lemma Reassociate<T>(q: seq<T>, sent: seq<T>, got: seq<T>, mid: seq<T>, rest: seq<T>, done: seq<T>, left: seq<T>)
    requires q + sent == got + mid && mid + rest == done + left
    ensures q + (sent + rest) == (got + done) + left
  {
    assert q + (sent + rest) == (q + sent) + rest == got + (mid + rest) == (got + done) + left;
  }
}
