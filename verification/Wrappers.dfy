/** Optional values, results, and the index arithmetic shared by the models. */
module Wrappers {

  datatype Option<+T> = None | Some(value: T)

  datatype Result<+T, +E> = Ok(value: T) | Err(error: E)

  function Bounded(index: nat, len: nat): (i: nat)
    ensures len > 0 ==> i < len
    ensures index < len ==> i == index
  {
    if len == 0 then 0 else if index < len - 1 then index else len - 1
  }

  function Min(a: int, b: int): (m: int)
    ensures m == a || m == b
    ensures m <= a && m <= b
  {
    if a < b then a else b
  }

  function Max(a: int, b: int): (m: int)
    ensures m == a || m == b
    ensures a <= m && b <= m
  {
    if a < b then b else a
  }
}
