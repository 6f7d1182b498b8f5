/** Embedded/Sources/Flash.c, the FBK functions: one logical array of bytes kept in two 4 KB flash
    banks. A write erases the spare bank, programs a full new image into it, and leaves the words
    that make the image count to the very last phrase.

    Power can fail between any two flash steps. The device carries `power`, the number of steps it
    will still carry out; once it is used up, flash no longer changes. What a reboot then finds is
    what flash holds. */
module Fbk {
  import opened Words

  const BANK_SIZE: nat := 4096
  const INFO_SIZE: nat := 8
  const DATA_SIZE: nat := BANK_SIZE - INFO_SIZE
  const BLOCK_SIZE: nat := 128
  const PHRASE_SIZE: nat := 8
  /** One sector erase and one step for each phrase of the bank. */
  const WRITE_STEPS: nat := 1 + BANK_SIZE / PHRASE_SIZE
  const ERASED: byte := 0xFF

  type Bank = b: seq<byte> | |b| == BANK_SIZE witness seq(BANK_SIZE, _ => ERASED)
  type BankIndex = i: nat | i < 2

  /** The contents of the two banks. */
  datatype Flash = Flash(bank0: Bank, bank1: Bank) {
    function At(i: BankIndex): Bank {
      if i == 0 then bank0 else bank1
    }

    function Put(i: BankIndex, b: Bank): Flash {
      if i == 0 then this.(bank0 := b) else this.(bank1 := b)
    }
  }

  // ---------- The accounting words ----------

  function WordAt(b: Bank, at: nat): word
    requires at + 1 < BANK_SIZE
  {
    Join(b[at], b[at + 1])
  }

  function Series(b: Bank): word {
    WordAt(b, DATA_SIZE)
  }

  function CheckWord(b: Bank): word {
    WordAt(b, DATA_SIZE + 2)
  }

  predicate Matches(series: word, check: word) {
    0xFFFF ^ series ^ check == 0
  }

  /** In 16-bit arithmetic, so 0 follows 0xFFFF. */
  predicate Follows(newer: word, older: word) {
    newer - older == 1
  }

  function Next(series: word): word {
    series + 1
  }

  predicate Valid(b: Bank) {
    Matches(Series(b), CheckWord(b))
  }

  /** The four bytes of accounting for a series number: the series and its complement. */
  function InfoBytes(series: word): (r: seq<byte>)
    ensures |r| == 4
  {
    [LowByte(series), HighByte(series), LowByte(series ^ 0xFFFF), HighByte(series ^ 0xFFFF)]
  }

  lemma Complement(w: word)
    ensures Matches(w, w ^ 0xFFFF)
  {}

  lemma ErasedWords()
    ensures !Matches(Join(ERASED, ERASED), Join(ERASED, ERASED))
  {}

  lemma InfoIsValid(b: Bank, series: word)
    requires b[DATA_SIZE..DATA_SIZE + 4] == InfoBytes(series)
    ensures Valid(b) && Series(b) == series
  {
    hide Join, LowByte, HighByte, Matches;
    ghost var info := b[DATA_SIZE..DATA_SIZE + 4];
    assert b[DATA_SIZE] == info[0] && b[DATA_SIZE + 1] == info[1];
    assert b[DATA_SIZE + 2] == info[2] && b[DATA_SIZE + 3] == info[3];
    JoinWord(series);
    JoinWord(series ^ 0xFFFF);
    Complement(series);
  }

  lemma ErasedInfoIsInvalid(b: Bank)
    requires forall p :: DATA_SIZE <= p < DATA_SIZE + 4 ==> b[p] == ERASED
    ensures !Valid(b)
  {
    hide Join, Matches;
    ErasedWords();
  }

  /** The bank FBK_Init settles on. */
  function Select(f: Flash): BankIndex {
    if !Valid(f.bank0) then 1
    else if !Valid(f.bank1) then 0
    else if Follows(Series(f.bank1), Series(f.bank0)) then 1
    else 0
  }

  // ---------- What a write programs ----------

  /** Where a write takes its bytes from: RAM, or a place in one of the two banks. */
  datatype Source = Ram(bytes: seq<byte>) | InBank(bank: BankIndex, offset: nat)

  /** The length check, in 32-bit unsigned arithmetic. */
  predicate Accepted(dst: Uint32, len: Uint32) {
    (dst + len) % UINT32 < BANK_SIZE
  }

  /** Position p takes a source byte, again in 32-bit unsigned arithmetic. */
  predicate Covered(dst: Uint32, len: Uint32, p: nat) {
    dst <= p < (dst + len) % UINT32
  }

  /** The source holds as many bytes as the write takes from it. */
  predicate Readable(src: Source, dst: Uint32, len: Uint32) {
    dst + len < UINT32 ==>
      match src
      case Ram(bytes) => len <= |bytes|
      case InBank(_, offset) => offset + len <= BANK_SIZE
  }

  ghost predicate Writable(src: Source, dst: Uint32, len: Uint32) {
    Accepted(dst, len) && Readable(src, dst, len)
  }

  lemma CoveredIsPlain(dst: Uint32, len: Uint32, p: nat)
    requires Accepted(dst, len) && Covered(dst, len, p)
    ensures dst + len < UINT32 && p < dst + len < BANK_SIZE
  {
    if dst + len >= UINT32 {
      assert false;
    }
  }

  /** Byte p of the new image. */
  function NewByte(f: Flash, a: BankIndex, src: Source, dst: Uint32, len: Uint32, p: nat): byte
    requires p < BANK_SIZE && Writable(src, dst, len)
    decreases p, 1
  {
    if DATA_SIZE <= p < DATA_SIZE + 4 then InfoBytes(Next(Series(f.At(a))))[p - DATA_SIZE]
    else CopiedByte(f, a, src, dst, len, p)
  }

  /** What the copy loop puts at position p: a source byte or the old byte. A source inside the
      spare bank is read while that bank is being rewritten: it shows the new image in the blocks
      already programmed, and erased cells after them. */
  function CopiedByte(f: Flash, a: BankIndex, src: Source, dst: Uint32, len: Uint32, p: nat): byte
    requires p < BANK_SIZE && Writable(src, dst, len)
    decreases p, 0
  {
    if !Covered(dst, len, p) then f.At(a)[p]
    else
      CoveredIsPlain(dst, len, p);
      match src
      case Ram(bytes) => bytes[p - dst]
      case InBank(b, offset) =>
        var q := offset + (p - dst);
        if b == a then f.At(a)[q]
        else if q / BLOCK_SIZE < p / BLOCK_SIZE then NewByte(f, a, src, dst, len, q)
        else ERASED
  }

  function Image(f: Flash, a: BankIndex, src: Source, dst: Uint32, len: Uint32): Bank
    requires Writable(src, dst, len)
  {
    seq(BANK_SIZE, p requires 0 <= p < BANK_SIZE => NewByte(f, a, src, dst, len, p))
  }

  /** A freshly erased bank with the first n phrases of an image programmed into it. */
  function Torn(image: Bank, n: nat): Bank
    requires n * PHRASE_SIZE <= BANK_SIZE
  {
    image[..n * PHRASE_SIZE] + seq(BANK_SIZE - n * PHRASE_SIZE, _ => ERASED)
  }

  /** Flash after the first n steps of a write. */
  function After(f: Flash, a: BankIndex, src: Source, dst: Uint32, len: Uint32, n: nat): Flash
    requires Writable(src, dst, len) && n <= WRITE_STEPS
  {
    if n == 0 then f else f.Put(1 - a, Torn(Image(f, a, src, dst, len), n - 1))
  }

  /** How many source bytes the copy loop has taken when it reaches position x. */
  function Taken(dst: Uint32, len: Uint32, x: nat): nat {
    var end := (dst + len) % UINT32;
    if x <= dst || end <= dst then 0 else if x <= end then x - dst else end - dst
  }

  /** What a source inside the spare bank shows while the block at x is being filled. */
  lemma SpareShows(f: Flash, a: BankIndex, src: Source, dst: Uint32, len: Uint32, x: nat, p: nat, q: nat)
    requires Writable(src, dst, len) && q < BANK_SIZE
    requires x % BLOCK_SIZE == 0 && x <= p < x + BLOCK_SIZE <= BANK_SIZE
    ensures Torn(Image(f, a, src, dst, len), x / PHRASE_SIZE)[q] ==
            if q / BLOCK_SIZE < p / BLOCK_SIZE then NewByte(f, a, src, dst, len, q) else ERASED
  {
    hide NewByte;
    assert q / BLOCK_SIZE < p / BLOCK_SIZE <==> q < x;
    assert x / PHRASE_SIZE * PHRASE_SIZE == x;
  }

  lemma Programs(b: byte)
    ensures ERASED & b == b
  {}

  function Steps(budget: nat, n: nat): nat {
    if budget < n then budget else n
  }

  /** The copied bytes, sealed if the block is the last, are the image's block at x. */
  lemma BlockOfImage(f: Flash, a: BankIndex, src: Source, dst: Uint32, len: Uint32, x: nat, copied: seq<byte>, block: seq<byte>)
    requires Writable(src, dst, len) && |copied| == |block| == BLOCK_SIZE
    requires x % BLOCK_SIZE == 0 && x + BLOCK_SIZE <= BANK_SIZE
    requires forall j :: 0 <= j < BLOCK_SIZE ==> copied[j] == CopiedByte(f, a, src, dst, len, x + j)
    requires var info := BLOCK_SIZE - INFO_SIZE;
             block == if x + BLOCK_SIZE == BANK_SIZE
                      then copied[..info] + InfoBytes(Next(Series(f.At(a)))) + copied[info + 4..] else copied
    ensures block == Image(f, a, src, dst, len)[x..x + BLOCK_SIZE]
  {
    hide CopiedByte, InfoBytes, Series, Next;
    forall j | 0 <= j < BLOCK_SIZE
      ensures block[j] == NewByte(f, a, src, dst, len, x + j)
    {}
  }

  lemma SlideIn(was: seq<byte>, now: seq<byte>, next: seq<byte>, at: nat, n: nat, block: seq<byte>)
    requires at + n + PHRASE_SIZE <= |was| == |now| && n + PHRASE_SIZE <= |block|
    requires now == was[..at] + block[..n] + was[at + n..]
    requires next == now[..at + n] + block[n..n + PHRASE_SIZE] + now[at + n + PHRASE_SIZE..]
    ensures next == was[..at] + block[..n + PHRASE_SIZE] + was[at + n + PHRASE_SIZE..]
  {}

  lemma StillErased(was: seq<byte>, now: seq<byte>, at: nat, n: nat, block: seq<byte>)
    requires at + n + PHRASE_SIZE <= |was| == |now| && n <= |block| && now == was[..at] + block[..n] + was[at + n..]
    requires forall p :: at <= p < at + n + PHRASE_SIZE ==> was[p] == ERASED
    ensures forall p :: at + n <= p < at + n + PHRASE_SIZE ==> now[p] == ERASED
  {}

  lemma AfterIs(f: Flash, a: BankIndex, src: Source, dst: Uint32, len: Uint32, n: nat, now: Flash)
    requires Writable(src, dst, len) && n <= WRITE_STEPS && now.At(a) == f.At(a)
    requires now.At(1 - a) == if n == 0 then f.At(1 - a) else Torn(Image(f, a, src, dst, len), n - 1)
    ensures now == After(f, a, src, dst, len, n)
  {
    hide Torn, Image;
  }

  lemma TakenNone(dst: Uint32, len: Uint32)
    ensures Taken(dst, len, 0) == 0
  {}

  lemma TornFromErased(image: Bank)
    ensures Torn(image, 0) == seq(BANK_SIZE, _ => ERASED)
  {}

  lemma BlockPart(image: Bank, x: nat, m: nat, block: seq<byte>)
    requires m <= 16 && x + BLOCK_SIZE <= BANK_SIZE && block == image[x..x + BLOCK_SIZE]
    ensures block[..m * PHRASE_SIZE] == image[x..x + m * PHRASE_SIZE]
  {}

  lemma TornExtends(image: Bank, n: nat, m: nat, bank: Bank, block: seq<byte>)
    requires (n + m) * PHRASE_SIZE <= BANK_SIZE && m * PHRASE_SIZE <= |block|
    requires bank == Torn(image, n)[..n * PHRASE_SIZE] + block[..m * PHRASE_SIZE] + Torn(image, n)[(n + m) * PHRASE_SIZE..]
    requires block[..m * PHRASE_SIZE] == image[n * PHRASE_SIZE..(n + m) * PHRASE_SIZE]
    ensures bank == Torn(image, n + m)
  {}

  // ---------- The code ----------

  class Context {
    var activeBank: BankIndex
    const cells0: array<byte>
    const cells1: array<byte>
    /** Flash steps left before power fails. */
    var power: nat

    ghost predicate Wired()
      reads this
    {
      cells0.Length == BANK_SIZE && cells1.Length == BANK_SIZE && cells0 != cells1
    }

    ghost function Contents(): Flash
      requires Wired()
      reads this, cells0, cells1
    {
      Flash(cells0[..], cells1[..])
    }

    function Cells(i: BankIndex): array<byte> {
      if i == 0 then cells0 else cells1
    }

    constructor (bank0: array<byte>, bank1: array<byte>, power: nat)
      requires bank0.Length == BANK_SIZE && bank1.Length == BANK_SIZE && bank0 != bank1
      ensures Wired() && cells0 == bank0 && cells1 == bank1 && this.power == power && activeBank == 0
    {
      cells0, cells1, this.power, activeBank := bank0, bank1, power, 0;
    }

    method ReadWord(i: BankIndex, at: nat) returns (w: word)
      requires Wired() && at + 1 < BANK_SIZE
      ensures w == WordAt(Contents().At(i), at)
    {
      var c := Cells(i);
      w := Join(c[at], c[at + 1]);
    }

    /** FBK_Init. */
    method Init()
      requires Wired()
      modifies this`activeBank
      ensures activeBank == Select(Contents())
    {
      hide Join, Matches, Follows;
      activeBank := 0;
      for x := 0 to 2
        invariant activeBank == 0
        invariant x > 0 ==> Valid(cells0[..])
        invariant x > 1 ==> Valid(cells1[..])
      {
        var series := ReadWord(x, DATA_SIZE);
        var check := ReadWord(x, DATA_SIZE + 2);
        if !Matches(series, check) {
          activeBank := 1 - x;
          return;
        }
      }
      var s0 := ReadWord(0, DATA_SIZE);
      var s1 := ReadWord(1, DATA_SIZE);
      if Follows(s1, s0) {
        activeBank := 1;
      }
    }

    /** FlashEraseSector on one bank: a single step. */
    method EraseSector(i: BankIndex)
      requires Wired()
      modifies this`power, Cells(i)
      ensures Wired()
      ensures power == if old(power) > 0 then old(power) - 1 else 0
      ensures old(power) == 0 ==> Cells(i)[..] == old(Cells(i)[..])
      ensures old(power) > 0 ==> Cells(i)[..] == seq(BANK_SIZE, _ => ERASED)
    {
      if power > 0 {
        power := power - 1;
        var c := Cells(i);
        for k := 0 to BANK_SIZE
          modifies c
          invariant forall j :: 0 <= j < k ==> c[j] == ERASED
        {
          c[k] := ERASED;
        }
      }
    }

    /** FlashProgramPhrase: the buffer goes in phrase by phrase, upwards. Programming can only clear
        bits, so a phrase is written where the flash still works only over erased cells. */
    method ProgramPhrase(i: BankIndex, at: nat, buffer: array<byte>)
      requires Wired() && buffer.Length == BLOCK_SIZE && buffer != cells0 && buffer != cells1
      requires at + BLOCK_SIZE <= BANK_SIZE
      requires power > 0 ==> forall p :: at <= p < at + BLOCK_SIZE ==> Cells(i)[p] == ERASED
      modifies this`power, Cells(i)
      ensures Wired()
      ensures var n := Steps(old(power), 16);
              && power == old(power) - n
              && Cells(i)[..] == old(Cells(i)[..])[..at] + buffer[..n * PHRASE_SIZE] + old(Cells(i)[..])[at + n * PHRASE_SIZE..]
    {
      var c, done := Cells(i), 0;
      ghost var was := c[..];
      for phrase := 0 to 16
        modifies this`power, c
        invariant done == Steps(old(power), phrase) && power == old(power) - done
        invariant c[..] == was[..at] + buffer[..done * PHRASE_SIZE] + was[at + done * PHRASE_SIZE..]
      {
        if power > 0 {
          power := power - 1;
          var from := phrase * PHRASE_SIZE;
          ghost var now := c[..];
          StillErased(was, now, at, from, buffer[..]);
          ProgramCells(c, at + from, buffer, from);
          SlideIn(was, now, c[..], at, from, buffer[..]);
          done := done + 1;
        }
      }
    }

    /** One phrase: every cell takes the bits still set in it and in the new byte. */
    static method ProgramCells(cells: array<byte>, at: nat, buffer: array<byte>, start: nat)
      requires at + PHRASE_SIZE <= cells.Length && start + PHRASE_SIZE <= buffer.Length && cells != buffer
      requires forall p :: at <= p < at + PHRASE_SIZE ==> cells[p] == ERASED
      modifies cells
      ensures cells[..] == old(cells[..])[..at] + buffer[start..start + PHRASE_SIZE] + old(cells[..])[at + PHRASE_SIZE..]
    {
      for k := 0 to PHRASE_SIZE
        invariant forall p :: 0 <= p < cells.Length ==>
                    cells[p] == if at <= p < at + k then buffer[start + p - at] else old(cells[p])
      {
        Programs(buffer[start + k]);
        cells[at + k] := cells[at + k] & buffer[start + k];
      }
    }

    /** FBK_WriteFlash. */
    method WriteFlash(src: Source, dst: Uint32, len: Uint32) returns (ret: Uint32)
      requires Wired() && Readable(src, dst, len)
      modifies this, cells0, cells1
      ensures Wired()
      ensures ret == 0 <==> dst + len < BANK_SIZE || UINT32 <= dst + len < UINT32 + BANK_SIZE
      ensures ret != 0 ==>
                ret == UINT32 - 1 && Contents() == old(Contents()) && activeBank == old(activeBank) && power == old(power)
      ensures ret == 0 ==>
                var n := Steps(old(power), WRITE_STEPS);
                && activeBank == 1 - old(activeBank) && power == old(power) - n
                && Writable(src, dst, len)
                && Contents() == After(old(Contents()), old(activeBank), src, dst, len, n)
    {
      if (dst + len) % UINT32 >= BANK_SIZE {
        return UINT32 - 1;
      }
      hide After, Torn, Image;
      WriteAccepted(src, dst, len);
      return 0;
    }

    method WriteAccepted(src: Source, dst: Uint32, len: Uint32)
      requires Wired() && Writable(src, dst, len)
      modifies this, cells0, cells1
      ensures Wired() && activeBank == 1 - old(activeBank)
      ensures var n := Steps(old(power), WRITE_STEPS);
              power == old(power) - n && Contents() == After(old(Contents()), old(activeBank), src, dst, len, n)
    {
      hide NewByte, Torn, Image, After, Taken, Writable;
      ghost var f, budget := Contents(), power;
      ghost var image := Image(f, activeBank, src, dst, len);
      EraseSector(1 - activeBank);
      TornFromErased(image);
      ProgramImage(src, dst, len, f, image);
      AfterIs(f, activeBank, src, dst, len, Steps(budget, WRITE_STEPS), Contents());
      activeBank := 1 - activeBank;
    }

    /** The outer loop of FBK_WriteFlash: the new image block by block into the erased bank. */
    method ProgramImage(src: Source, dst: Uint32, len: Uint32, ghost f: Flash, ghost image: Bank)
      requires Wired() && Writable(src, dst, len) && image == Image(f, activeBank, src, dst, len)
      requires Cells(activeBank)[..] == f.At(activeBank)
      requires power > 0 ==> Cells(1 - activeBank)[..] == Torn(image, 0)
      modifies this`power, Cells(1 - activeBank)
      ensures Wired() && power == old(power) - Steps(old(power), WRITE_STEPS - 1)
      ensures old(power) == 0 ==> Cells(1 - activeBank)[..] == old(Cells(1 - activeBank)[..])
      ensures old(power) > 0 ==> Cells(1 - activeBank)[..] == Torn(image, Steps(old(power), WRITE_STEPS - 1))
    {
      hide NewByte, Torn, Image, Taken;
      var buffer := new byte[BLOCK_SIZE];
      var x, taken := 0, 0;
      TakenNone(dst, len);
      ghost var budget, was := power, Cells(1 - activeBank)[..];
      while x < BANK_SIZE
        invariant x <= BANK_SIZE && x % BLOCK_SIZE == 0 && fresh(buffer)
        invariant taken == Taken(dst, len, x) && Cells(activeBank)[..] == f.At(activeBank)
        invariant power == budget - Steps(budget, x / PHRASE_SIZE)
        invariant budget == 0 ==> Cells(1 - activeBank)[..] == was
        invariant budget > 0 ==> Cells(1 - activeBank)[..] == Torn(image, Steps(budget, x / PHRASE_SIZE))
      {
        taken := FillBlock(src, dst, len, x, taken, buffer, f);
        ProgramBlock(x, buffer, image);
        x := x + BLOCK_SIZE;
      }
    }

    /** Program the block at x of an image, as far as the power lasts. */
    method ProgramBlock(x: nat, buffer: array<byte>, ghost image: Bank)
      requires Wired() && buffer.Length == BLOCK_SIZE && buffer != cells0 && buffer != cells1
      requires x + BLOCK_SIZE <= BANK_SIZE && x % BLOCK_SIZE == 0
      requires power > 0 ==> Cells(1 - activeBank)[..] == Torn(image, x / PHRASE_SIZE)
      requires power > 0 ==> buffer[..] == image[x..x + BLOCK_SIZE]
      modifies this`power, Cells(1 - activeBank)
      ensures Wired() && power == old(power) - Steps(old(power), 16)
      ensures old(power) == 0 ==> Cells(1 - activeBank)[..] == old(Cells(1 - activeBank)[..])
      ensures old(power) > 0 ==> Cells(1 - activeBank)[..] == Torn(image, x / PHRASE_SIZE + Steps(old(power), 16))
    {
      ghost var n, was := x / PHRASE_SIZE, Cells(1 - activeBank)[..];
      ghost var m := Steps(power, 16);
      assert n * PHRASE_SIZE == x;
      ProgramPhrase(1 - activeBank, x, buffer);
      if m > 0 {
        BlockPart(image, x, m, buffer[..]);
        assert buffer[..m * PHRASE_SIZE] == buffer[..][..m * PHRASE_SIZE];
        TornExtends(image, n, m, Cells(1 - activeBank)[..], buffer[..]);
      }
    }

    method FillBlock(src: Source, dst: Uint32, len: Uint32, x: nat, taken: nat, buffer: array<byte>, ghost f: Flash)
      returns (taken': nat)
      requires Wired() && Writable(src, dst, len) && buffer.Length == BLOCK_SIZE
      requires buffer != cells0 && buffer != cells1
      requires x + BLOCK_SIZE <= BANK_SIZE && x % BLOCK_SIZE == 0 && taken == Taken(dst, len, x)
      requires Cells(activeBank)[..] == f.At(activeBank)
      requires power > 0 ==> Cells(1 - activeBank)[..] == Torn(Image(f, activeBank, src, dst, len), x / PHRASE_SIZE)
      modifies buffer
      ensures taken' == Taken(dst, len, x + BLOCK_SIZE)
      ensures power > 0 ==> buffer[..] == Image(f, activeBank, src, dst, len)[x..x + BLOCK_SIZE]
    {
      hide NewByte, CopiedByte, InfoBytes, Join, Next, Torn;
      taken' := CopyBlock(src, dst, len, x, taken, buffer, f);
      ghost var copied := buffer[..];
      if x + BLOCK_SIZE == BANK_SIZE {
        var series := ReadWord(activeBank, DATA_SIZE);
        SealBlock(Next(series), buffer);
      }
      if power > 0 {
        BlockOfImage(f, activeBank, src, dst, len, x, copied, buffer[..]);
      }
    }

    /** The inner loop of FBK_WriteFlash: the next block of the new image, from the source and the
        old bank, as flash shows them at this moment. */
    method CopyBlock(src: Source, dst: Uint32, len: Uint32, x: nat, taken: nat, buffer: array<byte>, ghost f: Flash)
      returns (taken': nat)
      requires Wired() && Writable(src, dst, len) && buffer.Length == BLOCK_SIZE
      requires buffer != cells0 && buffer != cells1
      requires x + BLOCK_SIZE <= BANK_SIZE && x % BLOCK_SIZE == 0 && taken == Taken(dst, len, x)
      requires Cells(activeBank)[..] == f.At(activeBank)
      requires power > 0 ==> Cells(1 - activeBank)[..] == Torn(Image(f, activeBank, src, dst, len), x / PHRASE_SIZE)
      modifies buffer
      ensures taken' == Taken(dst, len, x + BLOCK_SIZE)
      ensures power > 0 ==> forall j :: 0 <= j < BLOCK_SIZE ==>
                buffer[j] == CopiedByte(f, activeBank, src, dst, len, x + j)
    {
      hide NewByte, Torn;
      taken' := taken;
      for k := 0 to BLOCK_SIZE
        invariant taken' == Taken(dst, len, x + k)
        invariant power > 0 ==> forall j :: 0 <= j < k ==>
                    buffer[j] == CopiedByte(f, activeBank, src, dst, len, x + j)
      {
        if dst <= x + k < (dst + len) % UINT32 {
          CoveredIsPlain(dst, len, x + k);
          match src {
            case Ram(bytes) => buffer[k] := bytes[taken'];
            case InBank(b, offset) =>
              SpareShows(f, activeBank, src, dst, len, x, x + k, offset + taken');
              buffer[k] := Cells(b)[offset + taken'];
          }
          taken' := taken' + 1;
        } else {
          buffer[k] := Cells(activeBank)[x + k];
        }
      }
    }

    /** The accounting words, laid over the end of the last block. */
    method SealBlock(series: word, buffer: array<byte>)
      requires buffer.Length == BLOCK_SIZE
      modifies buffer
      ensures buffer[..] == old(buffer[..BLOCK_SIZE - INFO_SIZE]) + InfoBytes(series) + old(buffer[BLOCK_SIZE - INFO_SIZE + 4..])
    {
      var info := BLOCK_SIZE - INFO_SIZE;
      buffer[info], buffer[info + 1] := LowByte(series), HighByte(series);
      buffer[info + 2], buffer[info + 3] := LowByte(series ^ 0xFFFF), HighByte(series ^ 0xFFFF);
    }
  }
}
