/** Numbers that several modules share. */
module Numbers {
  const TWO32: nat := 0x1_0000_0000

  function Min(a: nat, b: nat): nat { if a < b then a else b }
}
