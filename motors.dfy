/** Register descriptors shared by every motor model, and the little-endian
    helpers that split a 16-bit word into two bytes and join them back. */
module Motors {

  import opened Bytes

  /** What a register type answers: its address in the control table and its
      width in bytes (1 or 2 for the common registers). A register type made
      by the register-declaring macro returns the two constants it was
      declared with, so it is modelled by those two values. */
  datatype Register = Register(address: u16, length: u16)

  /** Joins a low byte and a high byte into a word. The source shifts the high
      byte left by 8 and ors in the low byte; on bytes the two never overlap,
      so that is the number `h * 256 + l`. */
  function Pack(l: u8, h: u8): u16
  {
    h * 256 + l
  }

  /** Splits a word into its low byte (first) and its high byte (second):
      the word cast to a byte, and the word shifted right by 8 cast to a
      byte. */
  function Unpack(w: u16): (u8, u8)
  {
    (w % 256, w / 256)
  }

  /** Splitting a joined pair gives the pair back. */
  lemma UnpackPack(l: u8, h: u8)
    ensures Unpack(Pack(l, h)) == (l, h)
  {
  }

  /** Joining the two halves of a word gives the word back. */
  lemma PackUnpack(w: u16)
    ensures Pack(Unpack(w).0, Unpack(w).1) == w
  {
  }

  /** Pack is one-to-one: distinct byte pairs give distinct words. */
  lemma PackDistinct(l: u8, h: u8, l': u8, h': u8)
    requires l != l' || h != h'
    ensures Pack(l, h) != Pack(l', h')
  {
    UnpackPack(l, h);
    UnpackPack(l', h');
  }
}
