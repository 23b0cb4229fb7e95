/** What several modules share. */
module Common {

  datatype Option<T> = None | Some(value: T)

  type byte = b: nat | b < 256

  function Min(a: nat, b: nat): nat {
    if a < b then a else b
  }
}
