/** The machine's numbers, and a value that may be missing. */
module Words {

  datatype Option<T> = None | Some(value: T)

  // Bits, where the source masks and shifts them.
  type byte = bv8
  type word = bv16

  // Numbers, where it counts with them.
  const UINT32: nat := 0x1_0000_0000
  type Byte = n: nat | n < 256
  type Word = n: nat | n < 0x1_0000
  type Uint32 = n: nat | n < UINT32

  function Number(b: byte): Byte {
    b as nat
  }

  function WordNumber(w: word): Word {
    w as nat
  }

  // ---------- Bytes of larger numbers, the lowest first ----------

  function LowByte(w: word): byte {
    (w & 0xFF) as byte
  }

  function HighByte(w: word): byte {
    (w >> 8) as byte
  }

  function Join(low: byte, high: byte): word {
    low as word | (high as word << 8)
  }

  function ByteOf(d: bv32, k: nat): byte
    requires k < 4
  {
    ((if k == 0 then d else if k == 1 then d >> 8 else if k == 2 then d >> 16 else d >> 24) & 0xFF) as byte
  }

  function JoinFour(b0: byte, b1: byte, b2: byte, b3: byte): bv32 {
    (b0 as bv32) | ((b1 as bv32) << 8) | ((b2 as bv32) << 16) | ((b3 as bv32) << 24)
  }

  lemma JoinWord(w: word)
    ensures Join(LowByte(w), HighByte(w)) == w
  {
  }

  lemma JoinRoundTrip(w: word, d: bv32)
    ensures Join(LowByte(w), HighByte(w)) == w
    ensures JoinFour(ByteOf(d, 0), ByteOf(d, 1), ByteOf(d, 2), ByteOf(d, 3)) == d
  {
  }
}
