/** Machine word ranges and optional values shared by the models. */
module Words {

  type U16 = x: int | 0 <= x < 0x1_0000

  const TWO32: nat := 0x1_0000_0000
  const TWO31: nat := 0x8000_0000
  const TWO64: nat := 0x1_0000_0000_0000_0000

  datatype Option<T> = None | Some(value: T)

  function Or<T>(o: Option<T>, default: T): T {
    if o.Some? then o.value else default
  }
}
