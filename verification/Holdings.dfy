/** What a device records about an identity it knows: whether it can use it, and how current the record is. */
module Holdings {

  /** A ghost keeps its place in the hierarchy and has no usable private key. */
  datatype Possession = Active | Ghost

  /** The largest generation a row can hold. */
  const MAX_GENERATION: nat := 0x7fff_ffff_ffff_ffff

  function Bumped(generation: int): (next: int)
    ensures generation >= 0 ==> next >= 0
  {
    if generation >= MAX_GENERATION then MAX_GENERATION else generation + 1
  }
}
