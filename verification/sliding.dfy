/** Moving the upper part of an array to its end, and stepping around a table. */
module Sliding {

  /**
   The backward copy of `buffer_realloc` and `queue_push`: the two ranges may overlap, so the last element goes
   first.
   */
  method SlideUp<T>(a: array<T>, from: nat, to: nat) returns (index: nat)
    requires from <= to <= a.Length
    modifies a
    ensures index == a.Length - (to - from)
    ensures a[index..] == old(a[from..to])
    ensures a[..from] == old(a[..from])
  {
    var i := to;
    index := a.Length;
    ghost var was := a[..];
    while i > from
      invariant from <= i <= to && index == a.Length - (to - i)
      invariant a[..i] == was[..i]
      invariant a[index..] == was[i..to]
    {
      index, i := index - 1, i - 1;
      ghost var done := a[index + 1..];
      assert a[i] == a[..i + 1][i] == was[i];
      a[index] := a[i];
      assert a[index + 1..] == done;
      assert a[index..] == [was[i]] + done;
      assert was[i..to] == [was[i]] + was[i + 1..to];
    }
  }

  lemma Multiples(d: int, n: nat)
    ensures d >= 1 ==> d * n >= n
    ensures d <= -1 ==> d * n + n <= 0
  {
  }

  /** A quotient and a remainder in range are the ones division gives. */
  lemma ModIs(x: int, q: int, r: nat, n: nat)
    requires r < n && x == q * n + r
    ensures x % n == r
  {
    var d := x / n - q;
    Multiples(d, n);
    assert x == (x / n) * n + x % n;
    assert d * n == (x / n) * n - q * n;
  }
}
