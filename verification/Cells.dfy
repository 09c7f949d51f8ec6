/** The 32-bit cells of the script language. */
module Cells {
  /** The low 32 bits of a number, as a signed cell. */
  function Low32(x: int): (r: int)
    ensures -0x8000_0000 <= r < 0x8000_0000
  {
    var r := x % 0x1_0000_0000;
    if r < 0x8000_0000 then r else r - 0x1_0000_0000
  }
}
