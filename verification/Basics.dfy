// What several modules need.
module Basics {
  datatype Option<T> = None | Some(value: T)

  function Pow2(k: nat): nat {
    if k == 0 then 1 else 2 * Pow2(k - 1)
  }
}
