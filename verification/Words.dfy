/** Machine words and result types shared by every module. */
module Words {

  /** An 8-bit register or FIFO value. */
  type byte = x: int | 0 <= x < 0x100

  /** The modulus of a u16 / u64: release builds of the kernel wrap silently. */
  const MOD16: nat := 0x1_0000
  const MOD64: nat := 0x1_0000_0000_0000_0000

  datatype Option<+T> = None | Some(value: T)

  datatype Outcome<+E> = Pass | Fail(error: E)

  /** Whether the bit with weight `weight` (a power of two) is set in `b`. */
  predicate Bit(b: byte, weight: nat)
    requires weight > 0
  {
    (b / weight) % 2 == 1
  }

  function Max(a: nat, b: nat): nat {
    if a < b then b else a
  }

  function Min(a: nat, b: nat): nat {
    if a < b then a else b
  }
}
