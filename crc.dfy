/** CRC-16/BUYPASS, the checksum that closes every protocol 2.0 packet:
    polynomial 0x8005, initial value 0, bits not reflected, no final xor.
    The driver takes it from a library; here it is written out bit by bit,
    most significant bit first, on a 16-bit register. */
module Crc16 {

  import opened Bytes

  /** One bit of long division by the polynomial 0x8005. */
  function Step(r: bv16): bv16 {
    if r & 0x8000 != 0 then (r << 1) ^ 0x8005 else r << 1
  }

  /** `n` steps. */
  function Steps(r: bv16, n: nat): bv16
    decreases n
  {
    if n == 0 then r else Steps(Step(r), n - 1)
  }

  /** A byte placed in the high half of the register. */
  function High(b: u8): bv16 {
    ((b as bv8) as bv16) << 8
  }

  /** The register after feeding one more byte. */
  function Update(r: bv16, b: u8): bv16 {
    Steps(r ^ High(b), 8)
  }

  /** The register after feeding `s`, byte by byte, from `r`. */
  function Feed(r: bv16, s: seq<u8>): bv16
    decreases |s|
  {
    if s == [] then r else Feed(Update(r, s[0]), s[1..])
  }

  /** The CRC of a byte sequence, as an unsigned 16-bit number. */
  function Crc(s: seq<u8>): u16 {
    Feed(0, s) as int
  }

  /** Feeding a concatenation feeds the first part, then the second: the
      checksum of a packet can be computed piece by piece. */
  lemma {:induction false} FeedAppend(r: bv16, p: seq<u8>, q: seq<u8>)
    ensures Feed(r, p + q) == Feed(Feed(r, p), q)
    decreases |p|
  {
    if p != [] {
      assert (p + q)[0] == p[0];
      assert (p + q)[1..] == p[1..] + q;
      assert Feed(r, p + q) == Feed(Update(r, p[0]), p[1..] + q);
      FeedAppend(Update(r, p[0]), p[1..], q);
    } else {
      assert p + q == q;
    }
  }

  // ---------------------------------------------------------------------
  // The catalogue check value of CRC-16/BUYPASS: the CRC of the ASCII
  // digits "123456789" is 0xFEE8.

  lemma CheckValueBytes0()
    ensures Update(0x0000, 0x31) == 0x80A5
    ensures Update(0x80A5, 0x32) == 0xA6AC
    ensures Update(0xA6AC, 0x33) == 0xAF7E
  {
  }

  lemma CheckValueBytes1()
    ensures Update(0xAF7E, 0x34) == 0xFD59
    ensures Update(0xFD59, 0x35) == 0xDBB3
    ensures Update(0xDBB3, 0x36) == 0xB16E
  {
  }

  lemma CheckValueBytes2()
    ensures Update(0xB16E, 0x37) == 0xED17
    ensures Update(0xED17, 0x38) == 0x95FD
    ensures Update(0x95FD, 0x39) == 0xFEE8
  {
  }

  lemma CheckValueHead()
    ensures Feed(0x0000, [0x31, 0x32, 0x33, 0x34, 0x35]) == 0xDBB3
  {
    CheckValueBytes0();
    CheckValueBytes1();
    assert Feed(0x0000, [0x31, 0x32, 0x33, 0x34, 0x35]) == Feed(0x80A5, [0x32, 0x33, 0x34, 0x35]);
    assert Feed(0x80A5, [0x32, 0x33, 0x34, 0x35]) == Feed(0xA6AC, [0x33, 0x34, 0x35]);
    assert Feed(0xA6AC, [0x33, 0x34, 0x35]) == Feed(0xAF7E, [0x34, 0x35]);
    assert Feed(0xAF7E, [0x34, 0x35]) == Feed(0xFD59, [0x35]);
    assert Feed(0xFD59, [0x35]) == Feed(0xDBB3, []);
  }

  lemma CheckValueTail()
    ensures Feed(0xDBB3, [0x36, 0x37, 0x38, 0x39]) == 0xFEE8
  {
    CheckValueBytes1();
    CheckValueBytes2();
    assert Feed(0xDBB3, [0x36, 0x37, 0x38, 0x39]) == Feed(0xB16E, [0x37, 0x38, 0x39]);
    assert Feed(0xB16E, [0x37, 0x38, 0x39]) == Feed(0xED17, [0x38, 0x39]);
    assert Feed(0xED17, [0x38, 0x39]) == Feed(0x95FD, [0x39]);
    assert Feed(0x95FD, [0x39]) == Feed(0xFEE8, []);
  }

  lemma CrcCheckValue(s: seq<u8>)
    requires s == [0x31, 0x32, 0x33, 0x34, 0x35, 0x36, 0x37, 0x38, 0x39]
    ensures Crc(s) == 0xFEE8
  {
    var p: seq<u8> := [0x31, 0x32, 0x33, 0x34, 0x35];
    var q: seq<u8> := [0x36, 0x37, 0x38, 0x39];
    assert s == p + q;
    FeedAppend(0, p, q);
    CheckValueHead();
    CheckValueTail();
  }

  // ---------------------------------------------------------------------
  // The checksum of the status packet in the driver's own unit test.

  lemma TestVectorBytes0()
    ensures Update(0x0000, 0xFF) == 0x0202
    ensures Update(0x0202, 0xFF) == 0x800D
    ensures Update(0x800D, 0xFD) == 0x0C0E
  {
  }

  lemma TestVectorBytes1()
    ensures Update(0x0C0E, 0x00) == 0x0E28
    ensures Update(0x0E28, 42) == 0x28D8
    ensures Update(0x28D8, 6) == 0xD8E4
  {
  }

  lemma TestVectorBytes2()
    ensures Update(0xD8E4, 0) == 0xE6D0
    ensures Update(0xE6D0, 0x55) == 0x53A9
    ensures Update(0x53A9, 0) == 0xA8EA
  {
  }

  lemma TestVectorBytes3()
    ensures Update(0xA8EA, 0) == 0x69F3
    ensures Update(0x69F3, 23) == 0xF204
  {
  }

  lemma TestVectorHead()
    ensures Feed(0x0000, [0xFF, 0xFF, 0xFD, 0, 42, 6]) == 0xD8E4
  {
    TestVectorBytes0();
    TestVectorBytes1();
    assert Feed(0x0000, [0xFF, 0xFF, 0xFD, 0, 42, 6]) == Feed(0x0202, [0xFF, 0xFD, 0, 42, 6]);
    assert Feed(0x0202, [0xFF, 0xFD, 0, 42, 6]) == Feed(0x800D, [0xFD, 0, 42, 6]);
    assert Feed(0x800D, [0xFD, 0, 42, 6]) == Feed(0x0C0E, [0, 42, 6]);
    assert Feed(0x0C0E, [0, 42, 6]) == Feed(0x0E28, [42, 6]);
    assert Feed(0x0E28, [42, 6]) == Feed(0x28D8, [6]);
    assert Feed(0x28D8, [6]) == Feed(0xD8E4, []);
  }

  lemma TestVectorTail()
    ensures Feed(0xD8E4, [0, 0x55, 0, 0, 23]) == 0xF204
  {
    TestVectorBytes2();
    TestVectorBytes3();
    assert Feed(0xD8E4, [0, 0x55, 0, 0, 23]) == Feed(0xE6D0, [0x55, 0, 0, 23]);
    assert Feed(0xE6D0, [0x55, 0, 0, 23]) == Feed(0x53A9, [0, 0, 23]);
    assert Feed(0x53A9, [0, 0, 23]) == Feed(0xA8EA, [0, 23]);
    assert Feed(0xA8EA, [0, 23]) == Feed(0x69F3, [23]);
    assert Feed(0x69F3, [23]) == Feed(0xF204, []);
  }

  /** The first eleven bytes of the unit test's status packet (id 42, no
      error, parameters 0 and 23) have the CRC 0xF204, whose low and high
      bytes 4 and 242 are the packet's last two bytes. */
  lemma CrcTestVector(s: seq<u8>)
    requires s == [0xFF, 0xFF, 0xFD, 0x00, 42, 6, 0, 0x55, 0, 0, 23]
    ensures Crc(s) == 0xF204
  {
    var p: seq<u8> := [0xFF, 0xFF, 0xFD, 0, 42, 6];
    var q: seq<u8> := [0, 0x55, 0, 0, 23];
    assert s == p + q;
    FeedAppend(0, p, q);
    TestVectorHead();
    TestVectorTail();
  }
}
