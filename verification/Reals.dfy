/** Small functions on reals that several components share. */
module Reals {
  function Max(x: real, y: real): (m: real)
    ensures m >= x && m >= y && (m == x || m == y)
  {
    if x >= y then x else y
  }

  function Min(x: real, y: real): (m: real)
    ensures m <= x && m <= y && (m == x || m == y)
  {
    if x <= y then x else y
  }

  function Ceiling(h: real): (c: int)
    ensures c as real - 1.0 < h <= c as real
  {
    if h.Floor as real == h then h.Floor else h.Floor + 1
  }

  function Distance(x: real, y: real): (d: real)
    ensures d >= 0.0 && (d == x - y || d == y - x)
  {
    if x >= y then x - y else y - x
  }
}
