/** The two stream operators the listing applies to the store's full scan,
    written the way the operators consume a stream: one element at a time. */
module Stream {

  function Min(a: int, b: int): int { if a <= b then a else b }
  function Max(a: int, b: int): int { if a >= b then a else b }

  /** `skip(n)`: drop the first `n` elements (all of them when the stream
      is shorter than `n`). A negative `n` is rejected by the operator. */
  function Skip<T>(xs: seq<T>, n: int): (r: seq<T>)
    requires n >= 0
    ensures r == xs[Min(n, |xs|)..]
    decreases |xs|
  {
    if n == 0 || |xs| == 0 then xs else Skip(xs[1..], n - 1)
  }

  /** `take(n)`: keep at most the first `n` elements. A negative `n` is
      rejected by the operator. */
  function Take<T>(xs: seq<T>, n: int): (r: seq<T>)
    requires n >= 0
    ensures r == xs[..Min(n, |xs|)]
    decreases |xs|
  {
    if n == 0 || |xs| == 0 then [] else [xs[0]] + Take(xs[1..], n - 1)
  }
}
