/**
 * Index arithmetic of the viewer: `next`, `prev` and the clamp of the optional
 * 1-based start index given on the command line.
 */
module Navigator {

  /** `next`: step forward, wrapping from the last item to the first. */
  function Next(i: int, n: int): (r: int)
    requires 0 <= i < n
    ensures 0 <= r < n
    ensures r == (i + 1) % n
  {
    if i + 1 > n - 1 then 0 else i + 1
  }

  /** `prev`: step back, wrapping from the first item to the last. */
  function Prev(i: int, n: int): (r: int)
    requires 0 <= i < n
    ensures 0 <= r < n
    ensures r == (i - 1 + n) % n
  {
    if i - 1 < 0 then n - 1 else i - 1
  }

  /** `prev` undoes `next`. */
  lemma PrevNext(i: int, n: int)
    requires 0 <= i < n
    ensures Prev(Next(i, n), n) == i
  {
  }

  /** `next` undoes `prev`. */
  lemma NextPrev(i: int, n: int)
    requires 0 <= i < n
    ensures Next(Prev(i, n), n) == i
  {
  }

  /** The index reached after `k` presses of `next`. */
  function NextTimes(i: int, n: int, k: nat): (r: int)
    requires 0 <= i < n
    ensures 0 <= r < n
  {
    if k == 0 then i else Next(NextTimes(i, n, k - 1), n)
  }

  /** The index reached after `k` presses of `prev`. */
  function PrevTimes(i: int, n: int, k: nat): (r: int)
    requires 0 <= i < n
    ensures 0 <= r < n
  {
    if k == 0 then i else Prev(PrevTimes(i, n, k - 1), n)
  }

  /** Up to `n` presses of `next` move forward by `k`, wrapping at most once. */
  lemma {:induction false} NextTimesAdvances(i: int, n: int, k: nat)
    requires 0 <= i < n && k <= n
    ensures NextTimes(i, n, k) == if i + k < n then i + k else i + k - n
  {
    if k > 0 {
      NextTimesAdvances(i, n, k - 1);
    }
  }

  /** Up to `n` presses of `prev` move back by `k`, wrapping at most once. */
  lemma {:induction false} PrevTimesRetreats(i: int, n: int, k: nat)
    requires 0 <= i < n && k <= n
    ensures PrevTimes(i, n, k) == if i - k >= 0 then i - k else i - k + n
  {
    if k > 0 {
      PrevTimesRetreats(i, n, k - 1);
    }
  }

  /** Pressing `next` once per item comes back to the starting item. */
  lemma NextCycle(i: int, n: int)
    requires 0 <= i < n
    ensures NextTimes(i, n, n) == i
  {
    NextTimesAdvances(i, n, n);
  }

  /** Pressing `prev` once per item comes back to the starting item. */
  lemma PrevCycle(i: int, n: int)
    requires 0 <= i < n
    ensures PrevTimes(i, n, n) == i
  {
    PrevTimesRetreats(i, n, n);
  }

  /**
   * The start index `max(min(k - 1, n - 1), 0)`, where `n - 1` is the list size
   * minus one converted to `int` (so -1 for an empty list).
   */
  function StartIndex(k: int, n: nat): (r: int)
    ensures 0 <= r
    ensures n >= 1 ==> r < n
    ensures n == 0 ==> r == 0
    ensures 1 <= k <= n ==> r == k - 1
    ensures k <= 1 ==> r == 0
    ensures n >= 1 && k > n ==> r == n - 1
  {
    var upper := if k - 1 < n - 1 then k - 1 else n - 1;
    if upper > 0 then upper else 0
  }
}
