/** Types and constants shared by the models of the contracts and of the tools. */
module Common {
  type Address = string

  const ZERO_ADDRESS: Address := "0x0000000000000000000000000000000000000000"

  datatype Option<T> = None | Some(value: T)
}
