/** Unsigned 64-bit words where the code depends on their wrap-around. */
module Words {

  /** `~((size_t)0)` */
  const SIZE_MAX: nat := 0xffff_ffff_ffff_ffff

  /** `x - 1` on unsigned words. */
  function Pred(x: nat): nat {
    if x == 0 then SIZE_MAX else x - 1
  }
}
