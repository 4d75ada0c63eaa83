/**
 What the transmit and the receive ring of uboot/sun8i_emac.c have in common: 32 descriptors, each with a
 buffer of 2048 bytes and a status word whose bit 31 gives it to the DMA engine.
 */
module EmacRing {
  import opened Pbufs

  const DESCS := 32
  const BUFSIZE := 2048
  const OWNED := 0x8000_0000

  /** buf_addr of a descriptor, from the start of the buffers */
  function Base(d: nat): nat {
    BUFSIZE * d
  }

  function Next(d: nat): (r: nat)
    ensures r < DESCS
  {
    if d + 1 >= DESCS then 0 else d + 1
  }

  function Put(mem: Bytes, at: nat, data: Bytes): (r: Bytes)
    requires at + |data| <= |mem|
    ensures |r| == |mem|
  {
    mem[..at] + data + mem[at + |data|..]
  }
}
