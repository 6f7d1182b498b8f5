/** Embedded/Sources/Crc.c: the two table-driven CRC updates and their tables.

    The meaning of an update is bit-at-a-time polynomial division: a message byte is added into the
    low end of the register, which then moves eight places, and each time a one leaves it the
    reflected polynomial is added. The tables are shown to be eight such steps at once. */
module Crc {
  import opened Words

  // ---------- Bit-at-a-time division ----------

  function Shift8(r: byte): byte {
    if r & 1 == 1 then (r >> 1) ^ 0x8C else r >> 1
  }

  function Shift16(r: word): word {
    if r & 1 == 1 then (r >> 1) ^ 0xA001 else r >> 1
  }

  function Divide8(r: byte): byte {
    Shift8(Shift8(Shift8(Shift8(Shift8(Shift8(Shift8(Shift8(r))))))))
  }

  function Divide16(r: word): word {
    Shift16(Shift16(Shift16(Shift16(Shift16(Shift16(Shift16(Shift16(r))))))))
  }

  function Step8(r: byte, x: byte): byte {
    Divide8(r ^ x)
  }

  function Step16(r: word, x: byte): word {
    Divide16(r ^ x as word)
  }

  /** The register after a whole message has been divided in. */
  function Fold<R>(step: (R, byte) -> R, r: R, message: seq<byte>): R {
    if message == [] then r
    else step(Fold(step, r, message[..|message| - 1]), message[|message| - 1])
  }

  function Crc8(crc: byte, message: seq<byte>): byte {
    Fold(Step8, crc, message)
  }

  function Crc16(crc: word, message: seq<byte>): word {
    Fold(Step16, crc, message)
  }

  // ---------- The tables ----------

  /** Entry i of a row of sixteen. */
  function Pick8(i: byte, v0: byte, v1: byte, v2: byte, v3: byte, v4: byte, v5: byte, v6: byte, v7: byte,
                 v8: byte, v9: byte, v10: byte, v11: byte, v12: byte, v13: byte, v14: byte, v15: byte): byte
  {
    if i < 8 then
      if i < 4 then
        if i < 2 then if i < 1 then v0 else v1 else if i < 3 then v2 else v3
      else
        if i < 6 then if i < 5 then v4 else v5 else if i < 7 then v6 else v7
    else
      if i < 12 then
        if i < 10 then if i < 9 then v8 else v9 else if i < 11 then v10 else v11
      else
        if i < 14 then if i < 13 then v12 else v13 else if i < 15 then v14 else v15
  }

  /** Entry i of a row of sixteen. */
  function Pick16(i: word, v0: word, v1: word, v2: word, v3: word, v4: word, v5: word, v6: word, v7: word,
                 v8: word, v9: word, v10: word, v11: word, v12: word, v13: word, v14: word, v15: word): word
  {
    if i < 8 then
      if i < 4 then
        if i < 2 then if i < 1 then v0 else v1 else if i < 3 then v2 else v3
      else
        if i < 6 then if i < 5 then v4 else v5 else if i < 7 then v6 else v7
    else
      if i < 12 then
        if i < 10 then if i < 9 then v8 else v9 else if i < 11 then v10 else v11
      else
        if i < 14 then if i < 13 then v12 else v13 else if i < 15 then v14 else v15
  }

  function Crc8Table(x: byte): byte {
    var i := x & 15;
    if x < 0x80 then
      if x < 0x40 then
        if x < 0x20 then
          if x < 0x10 then
            Pick8(i, 0, 94, 188, 226, 97, 63, 221, 131, 194, 156, 126, 32, 163, 253, 31, 65)
          else
            Pick8(i, 157, 195, 33, 127, 252, 162, 64, 30, 95, 1, 227, 189, 62, 96, 130, 220)
        else
          if x < 0x30 then
            Pick8(i, 35, 125, 159, 193, 66, 28, 254, 160, 225, 191, 93, 3, 128, 222, 60, 98)
          else
            Pick8(i, 190, 224, 2, 92, 223, 129, 99, 61, 124, 34, 192, 158, 29, 67, 161, 255)
      else
        if x < 0x60 then
          if x < 0x50 then
            Pick8(i, 70, 24, 250, 164, 39, 121, 155, 197, 132, 218, 56, 102, 229, 187, 89, 7)
          else
            Pick8(i, 219, 133, 103, 57, 186, 228, 6, 88, 25, 71, 165, 251, 120, 38, 196, 154)
        else
          if x < 0x70 then
            Pick8(i, 101, 59, 217, 135, 4, 90, 184, 230, 167, 249, 27, 69, 198, 152, 122, 36)
          else
            Pick8(i, 248, 166, 68, 26, 153, 199, 37, 123, 58, 100, 134, 216, 91, 5, 231, 185)
    else
      if x < 0xC0 then
        if x < 0xA0 then
          if x < 0x90 then
            Pick8(i, 140, 210, 48, 110, 237, 179, 81, 15, 78, 16, 242, 172, 47, 113, 147, 205)
          else
            Pick8(i, 17, 79, 173, 243, 112, 46, 204, 146, 211, 141, 111, 49, 178, 236, 14, 80)
        else
          if x < 0xB0 then
            Pick8(i, 175, 241, 19, 77, 206, 144, 114, 44, 109, 51, 209, 143, 12, 82, 176, 238)
          else
            Pick8(i, 50, 108, 142, 208, 83, 13, 239, 177, 240, 174, 76, 18, 145, 207, 45, 115)
      else
        if x < 0xE0 then
          if x < 0xD0 then
            Pick8(i, 202, 148, 118, 40, 171, 245, 23, 73, 8, 86, 180, 234, 105, 55, 213, 139)
          else
            Pick8(i, 87, 9, 235, 181, 54, 104, 138, 212, 149, 203, 41, 119, 244, 170, 72, 22)
        else
          if x < 0xF0 then
            Pick8(i, 233, 183, 85, 11, 136, 214, 52, 106, 43, 117, 151, 201, 74, 20, 246, 168)
          else
            Pick8(i, 116, 42, 200, 150, 21, 75, 169, 247, 182, 232, 10, 84, 215, 137, 107, 53)
  }
  function Crc16Table(x: word): word
    requires x < 0x100
  {
    var i := x & 15;
    if x < 0x80 then
      if x < 0x40 then
        if x < 0x20 then
          if x < 0x10 then
            Pick16(i, 0x0000, 0xC0C1, 0xC181, 0x0140, 0xC301, 0x03C0, 0x0280, 0xC241, 0xC601, 0x06C0, 0x0780, 0xC741, 0x0500, 0xC5C1, 0xC481, 0x0440)
          else
            Pick16(i, 0xCC01, 0x0CC0, 0x0D80, 0xCD41, 0x0F00, 0xCFC1, 0xCE81, 0x0E40, 0x0A00, 0xCAC1, 0xCB81, 0x0B40, 0xC901, 0x09C0, 0x0880, 0xC841)
        else
          if x < 0x30 then
            Pick16(i, 0xD801, 0x18C0, 0x1980, 0xD941, 0x1B00, 0xDBC1, 0xDA81, 0x1A40, 0x1E00, 0xDEC1, 0xDF81, 0x1F40, 0xDD01, 0x1DC0, 0x1C80, 0xDC41)
          else
            Pick16(i, 0x1400, 0xD4C1, 0xD581, 0x1540, 0xD701, 0x17C0, 0x1680, 0xD641, 0xD201, 0x12C0, 0x1380, 0xD341, 0x1100, 0xD1C1, 0xD081, 0x1040)
      else
        if x < 0x60 then
          if x < 0x50 then
            Pick16(i, 0xF001, 0x30C0, 0x3180, 0xF141, 0x3300, 0xF3C1, 0xF281, 0x3240, 0x3600, 0xF6C1, 0xF781, 0x3740, 0xF501, 0x35C0, 0x3480, 0xF441)
          else
            Pick16(i, 0x3C00, 0xFCC1, 0xFD81, 0x3D40, 0xFF01, 0x3FC0, 0x3E80, 0xFE41, 0xFA01, 0x3AC0, 0x3B80, 0xFB41, 0x3900, 0xF9C1, 0xF881, 0x3840)
        else
          if x < 0x70 then
            Pick16(i, 0x2800, 0xE8C1, 0xE981, 0x2940, 0xEB01, 0x2BC0, 0x2A80, 0xEA41, 0xEE01, 0x2EC0, 0x2F80, 0xEF41, 0x2D00, 0xEDC1, 0xEC81, 0x2C40)
          else
            Pick16(i, 0xE401, 0x24C0, 0x2580, 0xE541, 0x2700, 0xE7C1, 0xE681, 0x2640, 0x2200, 0xE2C1, 0xE381, 0x2340, 0xE101, 0x21C0, 0x2080, 0xE041)
    else
      if x < 0xC0 then
        if x < 0xA0 then
          if x < 0x90 then
            Pick16(i, 0xA001, 0x60C0, 0x6180, 0xA141, 0x6300, 0xA3C1, 0xA281, 0x6240, 0x6600, 0xA6C1, 0xA781, 0x6740, 0xA501, 0x65C0, 0x6480, 0xA441)
          else
            Pick16(i, 0x6C00, 0xACC1, 0xAD81, 0x6D40, 0xAF01, 0x6FC0, 0x6E80, 0xAE41, 0xAA01, 0x6AC0, 0x6B80, 0xAB41, 0x6900, 0xA9C1, 0xA881, 0x6840)
        else
          if x < 0xB0 then
            Pick16(i, 0x7800, 0xB8C1, 0xB981, 0x7940, 0xBB01, 0x7BC0, 0x7A80, 0xBA41, 0xBE01, 0x7EC0, 0x7F80, 0xBF41, 0x7D00, 0xBDC1, 0xBC81, 0x7C40)
          else
            Pick16(i, 0xB401, 0x74C0, 0x7580, 0xB541, 0x7700, 0xB7C1, 0xB681, 0x7640, 0x7200, 0xB2C1, 0xB381, 0x7340, 0xB101, 0x71C0, 0x7080, 0xB041)
      else
        if x < 0xE0 then
          if x < 0xD0 then
            Pick16(i, 0x5000, 0x90C1, 0x9181, 0x5140, 0x9301, 0x53C0, 0x5280, 0x9241, 0x9601, 0x56C0, 0x5780, 0x9741, 0x5500, 0x95C1, 0x9481, 0x5440)
          else
            Pick16(i, 0x9C01, 0x5CC0, 0x5D80, 0x9D41, 0x5F00, 0x9FC1, 0x9E81, 0x5E40, 0x5A00, 0x9AC1, 0x9B81, 0x5B40, 0x9901, 0x59C0, 0x5880, 0x9841)
        else
          if x < 0xF0 then
            Pick16(i, 0x8801, 0x48C0, 0x4980, 0x8941, 0x4B00, 0x8BC1, 0x8A81, 0x4A40, 0x4E00, 0x8EC1, 0x8F81, 0x4F40, 0x8D01, 0x4DC0, 0x4C80, 0x8C41)
          else
            Pick16(i, 0x4400, 0x84C1, 0x8581, 0x4540, 0x8701, 0x47C0, 0x4680, 0x8641, 0x8201, 0x42C0, 0x4380, 0x8341, 0x4100, 0x81C1, 0x8081, 0x4040)
  }

  // ---------- One byte at a time ----------

  lemma Table8Divides(r: byte)
    ensures Crc8Table(r) == Divide8(r)
  {}

  lemma Table16Divides(z: word)
    requires z < 0x100
    ensures Crc16Table(z) == Divide16(z)
  {}

  function Add(a: word, b: word): word {
    a ^ b
  }

  function Half(a: word): word {
    a >> 1
  }

  predicate Odd(a: word) {
    a & 1 == 1
  }

  lemma HalvesAdd(a: word, b: word)
    ensures Half(Add(a, b)) == Add(Half(a), Half(b))
  {}

  lemma EvenKeepsOdd(a: word, b: word)
    requires !Odd(a)
    ensures Odd(Add(a, b)) == Odd(b)
  {}

  lemma AddOnward(a: word, b: word, c: word)
    ensures Add(Add(a, b), c) == Add(a, Add(b, c))
  {}

  lemma ShiftIs(a: word)
    ensures Shift16(a) == if Odd(a) then Add(Half(a), 0xA001) else Half(a)
  {}

  /** A part of the register that gives off a zero just moves down. */
  lemma ShiftOfEven(a: word, b: word)
    requires !Odd(a)
    ensures Shift16(Add(a, b)) == Add(Half(a), Shift16(b))
  {
    hide Shift16, Add, Half, Odd;
    ShiftIs(Add(a, b));
    ShiftIs(b);
    EvenKeepsOdd(a, b);
    HalvesAdd(a, b);
    AddOnward(Half(a), Half(b), 0xA001);
  }

  /** The high byte after k steps. */
  function Moved(r: word, k: nat): word
    requires k <= 8
  {
    if k == 0 then r & 0xFF00 else Half(Moved(r, k - 1))
  }

  lemma MovedIs(r: word)
    ensures var h := r & 0xFF00;
            Moved(r, 0) == h && Moved(r, 1) == h >> 1 && Moved(r, 2) == h >> 2 && Moved(r, 3) == h >> 3
            && Moved(r, 4) == h >> 4 && Moved(r, 5) == h >> 5 && Moved(r, 6) == h >> 6 && Moved(r, 7) == h >> 7
            && Moved(r, 8) == r >> 8
  {
    hide Half;
    HalvesOf(r & 0xFF00);
    HighByteDown(r);
    assert Moved(r, 2) == Half(Moved(r, 1));
    assert Moved(r, 4) == Half(Moved(r, 3));
    assert Moved(r, 6) == Half(Moved(r, 5));
  }

  lemma HalvesOf(h: word)
    ensures Half(h) == h >> 1 && Half(h >> 1) == h >> 2 && Half(h >> 2) == h >> 3 && Half(h >> 3) == h >> 4
    ensures Half(h >> 4) == h >> 5 && Half(h >> 5) == h >> 6 && Half(h >> 6) == h >> 7 && Half(h >> 7) == h >> 8
  {}

  lemma HighByteDown(r: word)
    ensures (r & 0xFF00) >> 8 == r >> 8
  {}

  lemma HighBitsEven(h: word)
    requires h & 0xFF == 0
    ensures !Odd(h) && !Odd(h >> 1) && !Odd(h >> 2) && !Odd(h >> 3)
    ensures !Odd(h >> 4) && !Odd(h >> 5) && !Odd(h >> 6) && !Odd(h >> 7)
  {}

  lemma HighAndLow(r: word)
    ensures (r & 0xFF00) & 0xFF == 0 && Add(r & 0xFF00, r & 0xFF) == r
  {}

  lemma MovedIsEven(r: word)
    ensures !Odd(Moved(r, 0)) && !Odd(Moved(r, 1)) && !Odd(Moved(r, 2)) && !Odd(Moved(r, 3))
    ensures !Odd(Moved(r, 4)) && !Odd(Moved(r, 5)) && !Odd(Moved(r, 6)) && !Odd(Moved(r, 7))
    ensures Moved(r, 8) == r >> 8 && Add(Moved(r, 0), r & 0xFF) == r
  {
    hide Odd, Add, Moved;
    MovedIs(r);
    HighAndLow(r);
    HighBitsEven(r & 0xFF00);
  }

  /** The first k of the eight steps. */
  function Shifts(r: word, k: nat): word
    requires k <= 8
  {
    if k == 0 then r else Shift16(Shifts(r, k - 1))
  }

  lemma DivideIsShifts(r: word)
    ensures Divide16(r) == Shifts(r, 8)
  {
    hide Shift16;
    assert Shifts(r, 1) == Shift16(Shifts(r, 0));
    assert Shifts(r, 2) == Shift16(Shifts(r, 1));
    assert Shifts(r, 3) == Shift16(Shifts(r, 2));
    assert Shifts(r, 4) == Shift16(Shifts(r, 3));
    assert Shifts(r, 5) == Shift16(Shifts(r, 4));
    assert Shifts(r, 6) == Shift16(Shifts(r, 5));
    assert Shifts(r, 7) == Shift16(Shifts(r, 6));
    assert Shifts(r, 8) == Shift16(Shifts(r, 7));
  }

  lemma {:induction false} ShiftsByLowByte(r: word, k: nat)
    requires k <= 8
    ensures Shifts(r, k) == Add(Moved(r, k), Shifts(r & 0xFF, k))
  {
    hide Shift16, Add, Odd, Half;
    MovedIsEven(r);
    if k > 0 {
      ShiftsByLowByte(r, k - 1);
      ShiftOfEven(Moved(r, k - 1), Shifts(r & 0xFF, k - 1));
    }
  }

  /** The high byte only moves down, so a table for the low byte is enough. */
  lemma Divide16ByLowByte(r: word)
    ensures Divide16(r) == (r >> 8) ^ Divide16(r & 0xFF)
  {
    hide Divide16, Shifts, Moved;
    DivideIsShifts(r);
    DivideIsShifts(r & 0xFF);
    MovedIsEven(r);
    ShiftsByLowByte(r, 8);
  }

  function High(w: word): word {
    w >> 8
  }

  function Low(w: word): word {
    w & 0xFF
  }

  function Mix(r: word, x: byte): word {
    r ^ x as word
  }

  lemma TableDivides(s: word)
    ensures Low(s) < 0x100 && High(s) ^ Crc16Table(Low(s)) == Divide16(s)
  {
    hide Divide16, Crc16Table;
    Divide16ByLowByte(s);
    Table16Divides(s & 0xFF);
  }

  lemma LowByteAdds(r: word, x: byte)
    ensures High(Mix(r, x)) == High(r) && Step16(r, x) == Divide16(Mix(r, x))
  {
    hide Divide16;
  }

  lemma TableStep16(r: word, x: byte)
    ensures Low(Mix(r, x)) < 0x100 && High(r) ^ Crc16Table(Low(Mix(r, x))) == Step16(r, x)
  {
    hide Divide16, Crc16Table, High, Low, Mix, Step16;
    TableDivides(Mix(r, x));
    LowByteAdds(r, x);
  }

  lemma Divide8Injective(r: byte, r': byte)
    requires Divide8(r) == Divide8(r')
    ensures r == r'
  {}

  lemma Divide16Injective(r: word, r': word)
    requires Divide16(r) == Divide16(r')
    ensures r == r'
  {}

  // ---------- The two updates ----------

  method UpdateCRC8(currentCRC: byte, buffer: array<byte>, start: nat, buffSize: nat) returns (crc: byte)
    requires start + buffSize <= buffer.Length
    ensures crc == Crc8(currentCRC, buffer[start..start + buffSize])
  {
    hide Divide8, Crc8Table;
    crc := currentCRC;
    for i := 0 to buffSize
      invariant crc == Crc8(currentCRC, buffer[start..start + i])
    {
      var b := buffer[start + i];
      Table8Divides(crc ^ b);
      crc := Crc8Table(crc ^ b);
      assert buffer[start..start + i + 1][..i] == buffer[start..start + i];
    }
  }

  method UpdateCRC16(currentCRC: word, buffer: array<byte>, start: nat, buffSize: nat) returns (crc: word)
    requires start + buffSize <= buffer.Length
    ensures crc == Crc16(currentCRC, buffer[start..start + buffSize])
  {
    hide Step16, Crc16Table, High, Low, Mix;
    crc := currentCRC;
    for i := 0 to buffSize
      invariant crc == Crc16(currentCRC, buffer[start..start + i])
    {
      var b := buffer[start + i];
      TableStep16(crc, b);
      crc := High(crc) ^ Crc16Table(Low(Mix(crc, b)));
      assert buffer[start..start + i + 1][..i] == buffer[start..start + i];
    }
  }

  // ---------- What the codes promise ----------

  /** Updating twice is updating once with the two messages joined. */
  lemma {:induction false} FoldConcat<R>(step: (R, byte) -> R, r: R, a: seq<byte>, b: seq<byte>)
    ensures Fold(step, r, a + b) == Fold(step, Fold(step, r, a), b)
  {
    if b == [] {
      assert a + b == a;
    } else {
      var k := |b| - 1;
      assert (a + b)[..|a| + k] == a + b[..k];
      FoldConcat(step, r, a, b[..k]);
    }
  }

  ghost predicate Injective<R(!new)>(step: (R, byte) -> R) {
    forall r, x, r', x' :: step(r, x) == step(r', x') ==> (r == r' <==> x == x')
  }

  /** Two registers that differ stay different however much is divided in after. */
  lemma {:induction false} FoldKeepsApart<R(!new)>(step: (R, byte) -> R, r: R, r': R, message: seq<byte>)
    requires Injective(step) && r != r'
    ensures Fold(step, r, message) != Fold(step, r', message)
  {
    if message != [] {
      var k := |message| - 1;
      FoldKeepsApart(step, r, r', message[..k]);
      var p, p', b := Fold(step, r, message[..k]), Fold(step, r', message[..k]), message[k];
      assert p != p';
      assert step(p, b) != step(p', b);
    }
  }

  lemma FoldSeesOneByte<R(!new)>(step: (R, byte) -> R, r: R, m: seq<byte>, k: nat, x: byte)
    requires Injective(step) && k < |m| && m[k] != x
    ensures Fold(step, r, m) != Fold(step, r, m[k := x])
  {
    var p, b := Fold(step, r, m[..k]), m[k + 1..];
    FoldConcat(step, r, m[..k + 1], b);
    FoldConcat(step, r, m[k := x][..k + 1], b);
    assert m == m[..k + 1] + b && m[k := x] == m[k := x][..k + 1] + b;
    assert m[..k + 1][..k] == m[..k] == m[k := x][..k + 1][..k];
    assert step(p, m[k]) != step(p, x);
    FoldKeepsApart(step, step(p, m[k]), step(p, x), b);
  }

  lemma Cancel8(r: byte, x: byte, r': byte, x': byte)
    requires r ^ x == r' ^ x'
    ensures r == r' <==> x == x'
  {}

  lemma Step8Injective()
    ensures Injective(Step8)
  {
    hide Divide8;
    forall r, x, r', x' | Step8(r, x) == Step8(r', x')
      ensures r == r' <==> x == x'
    {
      Divide8Injective(r ^ x, r' ^ x');
      Cancel8(r, x, r', x');
    }
  }

  lemma Cancel16(r: word, x: byte, r': word, x': byte)
    requires r ^ x as word == r' ^ x' as word
    ensures r == r' <==> x == x'
  {}

  lemma Step16Injective()
    ensures Injective(Step16)
  {
    hide Divide16;
    forall r, x, r', x' | Step16(r, x) == Step16(r', x')
      ensures r == r' <==> x == x'
    {
      Divide16Injective(r ^ x as word, r' ^ x' as word);
      Cancel16(r, x, r', x');
    }
  }

  lemma Crc8Concat(crc: byte, a: seq<byte>, b: seq<byte>)
    ensures Crc8(crc, a + b) == Crc8(Crc8(crc, a), b)
  {
    FoldConcat(Step8, crc, a, b);
  }

  lemma Crc16Concat(crc: word, a: seq<byte>, b: seq<byte>)
    ensures Crc16(crc, a + b) == Crc16(Crc16(crc, a), b)
  {
    FoldConcat(Step16, crc, a, b);
  }

  /** A message with its own code behind it leaves nothing. */
  lemma Crc8Residue(crc: byte, m: seq<byte>)
    ensures Crc8(crc, m + [Crc8(crc, m)]) == 0
  {
    var c := Crc8(crc, m);
    Crc8Concat(crc, m, [c]);
    FoldOne(Step8, c, c);
    NothingLeft8(c);
  }

  lemma FoldOne<R>(step: (R, byte) -> R, r: R, x: byte)
    ensures Fold(step, r, [x]) == step(r, x)
  {
    assert [x][..0] == [];
  }

  lemma NothingLeft8(c: byte)
    ensures Step8(c, c) == 0
  {}

  /** The same for the 16-bit code, its low byte first. */
  lemma Crc16Residue(crc: word, m: seq<byte>)
    ensures var c := Crc16(crc, m);
            Crc16(crc, m + [LowByte(c), HighByte(c)]) == 0
  {
    hide Step16;
    var c := Crc16(crc, m);
    var tail := [LowByte(c), HighByte(c)];
    Crc16Concat(crc, m, tail);
    FoldOne(Step16, c, LowByte(c));
    FoldOne(Step16, Step16(c, LowByte(c)), HighByte(c));
    FoldConcat(Step16, c, [LowByte(c)], [HighByte(c)]);
    assert tail == [LowByte(c)] + [HighByte(c)];
    NothingLeft16(c);
  }

  lemma NothingLeft16(c: word)
    ensures Step16(Step16(c, LowByte(c)), HighByte(c)) == 0
  {
    hide Divide16;
    Divide16ByLowByte(c ^ LowByte(c) as word);
    LowGone(c);
    NothingDivided();
  }

  lemma LowGone(c: word)
    ensures (c ^ LowByte(c) as word) & 0xFF == 0 && (c ^ LowByte(c) as word) >> 8 == HighByte(c) as word
    ensures (HighByte(c) as word) ^ 0 == HighByte(c) as word && HighByte(c) as word ^ HighByte(c) as word == 0
  {}

  lemma NothingDivided()
    ensures Divide16(0) == 0
  {}

  /** One changed byte, anywhere in a message of any length, changes the code. */
  lemma Crc8SeesOneByte(crc: byte, m: seq<byte>, k: nat, x: byte)
    requires k < |m| && m[k] != x
    ensures Crc8(crc, m) != Crc8(crc, m[k := x])
  {
    Step8Injective();
    FoldSeesOneByte(Step8, crc, m, k, x);
  }

  lemma Crc16SeesOneByte(crc: word, m: seq<byte>, k: nat, x: byte)
    requires k < |m| && m[k] != x
    ensures Crc16(crc, m) != Crc16(crc, m[k := x])
  {
    Step16Injective();
    FoldSeesOneByte(Step16, crc, m, k, x);
  }
}
