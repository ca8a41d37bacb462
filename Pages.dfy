/** What the two game pages share: JavaScript's remainder, the cyclic word
    navigation built on it, the truthiness test of a worker error, and the
    status line. */
module Pages {
  import opened Wrappers

  /** `xs.map(f)`: `f` applied to every element, in order. */
  function MapSeq<A, B>(xs: seq<A>, f: A -> B): (ys: seq<B>)
    ensures |ys| == |xs|
    ensures forall i :: 0 <= i < |xs| ==> ys[i] == f(xs[i])
  {
    if xs == [] then [] else [f(xs[0])] + MapSeq(xs[1..], f)
  }

  /** JavaScript's `%` on integers: the quotient is truncated toward zero,
      so the remainder takes the sign of the dividend. */
  function JsRem(a: int, b: int): (r: int)
    requires b > 0
    ensures 0 <= a ==> 0 <= r < b
    ensures a < 0 ==> -b < r <= 0
    ensures 0 <= a ==> r == a % b
  {
    if a >= 0 then a % b else -((-a) % b)
  }

  /** `(currentWordIndex + 1) % length`. */
  function NextIndex(i: int, n: int): (r: int)
    requires n > 0
    ensures 0 <= i < n ==> r == if i == n - 1 then 0 else i + 1
  {
    JsRem(i + 1, n)
  }

  /** `(currentWordIndex - 1 + length) % length`. */
  function PrevIndex(i: int, n: int): (r: int)
    requires n > 0
    ensures 0 <= i < n ==> r == if i == 0 then n - 1 else i - 1
  {
    JsRem(i - 1 + n, n)
  }

  /** Stepping forward and back are mutual inverses on the valid indices. */
  lemma PrevNextInverse(i: int, n: int)
    requires 0 <= i < n
    ensures 0 <= NextIndex(i, n) < n && 0 <= PrevIndex(i, n) < n
    ensures PrevIndex(NextIndex(i, n), n) == i
    ensures NextIndex(PrevIndex(i, n), n) == i
  {
    assert 0 <= NextIndex(i, n) < n;
    assert 0 <= PrevIndex(i, n) < n;
  }

  /** The index after `k` presses of the next button. */
  function Advance(i: int, n: int, k: nat): int
    requires n > 0
  {
    if k == 0 then i else NextIndex(Advance(i, n, k - 1), n)
  }

  /** Up to `n` presses move `k` places round the cycle, wrapping once past
      the last index. */
  lemma {:induction false} AdvanceWraps(i: int, n: int, k: nat)
    requires 0 <= i < n && k <= n
    ensures Advance(i, n, k) == if i + k < n then i + k else i + k - n
  {
    if k > 0 {
      AdvanceWraps(i, n, k - 1);
    }
  }

  /** After `n` presses the index is back where it started. */
  lemma FullCycle(i: int, n: int)
    requires 0 <= i < n
    ensures Advance(i, n, n) == i
  {
    AdvanceWraps(i, n, n);
  }

  /** `if (error)`: an absent error and the empty string are falsy. */
  predicate Truthy(error: Option<string>)
  {
    error.Some? && error.value != ""
  }

  /** The status line. The two messages that print a number stay
      structured rather than formatted. */
  datatype Status =
    | NoStatus
    | Text(message: string)
    /** `Showing word ${position} of ${total}` */
    | ShowingWord(position: nat, total: nat)
    /** `Found ${count} words` */
    | FoundWords(count: nat)
}
