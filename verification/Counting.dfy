/** How many elements of a list pass a test. */
module Counting {

  function Count<T>(s: seq<T>, p: T -> bool): nat {
    if s == [] then 0 else Count(s[1..], p) + (if p(s[0]) then 1 else 0)
  }
}
