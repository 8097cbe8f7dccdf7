module Wrappers {
  datatype Option<+T> = None | Some(value: T)

  function Abs(x: int): nat {
    if x < 0 then -x else x
  }
}
