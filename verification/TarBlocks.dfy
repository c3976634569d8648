/** The blocks of tar archives. */
module TarBlocks {

  const BLOCK := 512

  /** The zeros that fill the last block of some bytes. */
  function Padding(size: nat): (n: nat)
    ensures n < BLOCK && (size + n) % BLOCK == 0
  {
    assert size == BLOCK * (size / BLOCK) + size % BLOCK;
    (BLOCK - size % BLOCK) % BLOCK
  }
}
