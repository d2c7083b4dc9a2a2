/** Fixed-size rings with a head and a count, as kept by the IPC queues and the terminals. */
module Rings {

  /** The slot `i` places after `head`. */
  function At(n: nat, head: nat, i: nat): (k: nat)
    requires head < n && i <= n
    ensures k < n && k == (head + i) % n
    ensures k == if head + i < n then head + i else head + i - n
  {
    WrapIs(n, head + i);
    (head + i) % n
  }

  lemma WrapIs(n: nat, k: nat)
    requires 0 < n && k < 2 * n
    ensures k % n == if k < n then k else k - n
  {
    if n <= k {
      assert k == (k - n) + n && (k - n) % n == k - n;
      ModPlus(k - n, n);
    }
  }

  lemma ModPlus(a: nat, n: nat)
    requires 0 < n && a < n
    ensures (a + n) % n == a
  {
    assert (a + n) / n == 1;
  }

  ghost predicate RingOk<T>(slots: seq<T>, head: nat, count: nat) {
    head < |slots| && count <= |slots|
  }

  /** The contents, oldest first. */
  ghost function Contents<T>(slots: seq<T>, head: nat, count: nat): (q: seq<T>)
    requires RingOk(slots, head, count)
    ensures |q| == count && forall i :: 0 <= i < count ==> q[i] == slots[At(|slots|, head, i)]
  {
    seq(count, i requires 0 <= i < count => slots[At(|slots|, head, i)])
  }

  /** How far slot `k` is past the head. */
  function Offset(n: nat, head: nat, k: nat): (i: nat)
    requires head < n && k < n
    ensures i < n && At(n, head, i) == k
  {
    if head <= k then k - head else k + n - head
  }

  lemma OffsetAt(n: nat, head: nat, i: nat)
    requires head < n && i < n
    ensures Offset(n, head, At(n, head, i)) == i
  {}

  lemma Push<T>(slots: seq<T>, head: nat, count: nat, x: T)
    requires RingOk(slots, head, count) && count < |slots|
    ensures RingOk(slots[At(|slots|, head, count) := x], head, count + 1)
    ensures Contents(slots[At(|slots|, head, count) := x], head, count + 1) == Contents(slots, head, count) + [x]
  {
    var now := slots[At(|slots|, head, count) := x];
    forall i | 0 <= i < count ensures now[At(|slots|, head, i)] == slots[At(|slots|, head, i)] {
      OffsetAt(|slots|, head, i);
      OffsetAt(|slots|, head, count);
    }
  }

  /** Taking the oldest, whatever is left in its slot. */
  lemma Pop<T>(slots: seq<T>, head: nat, count: nat, x: T)
    requires RingOk(slots, head, count) && 0 < count
    ensures RingOk(slots[head := x], At(|slots|, head, 1), count - 1)
    ensures Contents(slots, head, count)[0] == slots[head]
    ensures Contents(slots[head := x], At(|slots|, head, 1), count - 1) == Contents(slots, head, count)[1..]
  {
    var n := |slots|;
    forall i | 0 <= i < count - 1
      ensures slots[head := x][At(n, At(n, head, 1), i)] == slots[At(n, head, i + 1)]
    {
      Later(n, head, i);
    }
  }

  lemma Later(n: nat, head: nat, i: nat)
    requires head < n && i + 1 < n
    ensures At(n, At(n, head, 1), i) == At(n, head, i + 1) != head
  {}

  /** Which slots a push and a pop make part of the contents. */
  lemma PushOffset(n: nat, head: nat, count: nat, k: nat)
    requires head < n && count < n && k < n
    ensures Offset(n, head, k) < count + 1 <==> Offset(n, head, k) < count || k == At(n, head, count)
  {}

  lemma PopOffset(n: nat, head: nat, count: nat, k: nat)
    requires head < n && 0 < count <= n && k < n
    ensures Offset(n, At(n, head, 1), k) < count - 1 <==> Offset(n, head, k) < count && k != head
  {}
}
