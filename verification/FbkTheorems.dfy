/** What the FBK bank pair promises: a write that loses power is all or nothing, any history of
    writes, power losses and reboots acts on one array in place, and the exact condition on a
    write's source for that to hold. */
module FbkTheorems {
  import opened Fbk
  import opened Words

  function Data(b: Bank): (d: seq<byte>)
    ensures |d| == DATA_SIZE
  {
    b[..DATA_SIZE]
  }

  /** The array a client sees: what FBK_Address points into. */
  function Current(f: Flash, a: BankIndex): seq<byte> {
    Data(f.At(a))
  }

  // ---------- Crash atomicity ----------

  lemma TornIsInvalid(image: Bank, n: nat)
    requires n * PHRASE_SIZE <= DATA_SIZE
    ensures !Valid(Torn(image, n))
  {
    hide Matches, Join;
    ErasedInfoIsInvalid(Torn(image, n));
  }

  lemma ImageIsSealed(f: Flash, a: BankIndex, src: Source, dst: Uint32, len: Uint32)
    requires Writable(src, dst, len)
    ensures var image := Image(f, a, src, dst, len);
            Valid(image) && Series(image) == Next(Series(f.At(a)))
  {
    hide Valid, Series, Next, InfoBytes, CopiedByte;
    var image := Image(f, a, src, dst, len);
    assert image[DATA_SIZE..DATA_SIZE + 4] == InfoBytes(Next(Series(f.At(a))));
    InfoIsValid(image, Next(Series(f.At(a))));
  }

  lemma SeriesOrder(s: word)
    ensures Follows(Next(s), s) && !Follows(s, Next(s))
  {}

  /** Power may fail after any number of steps: the boot choice stays on the old bank, untouched,
      until the last step of all, which moves it to the complete new image. No assumption is made
      about the contents, so two blank banks and the wrap of the series number are included. */
  lemma CrashAtomic(f: Flash, a: BankIndex, src: Source, dst: Uint32, len: Uint32, n: nat)
    requires Writable(src, dst, len) && n <= WRITE_STEPS && a == Select(f)
    ensures var g := After(f, a, src, dst, len, n);
            && Select(g) == (if n < WRITE_STEPS then a else 1 - a)
            && Current(g, Select(g)) == if n < WRITE_STEPS then Current(f, a) else Data(Image(f, a, src, dst, len))
  {
    hide Valid, Series, Follows, Next, NewByte;
    var image := Image(f, a, src, dst, len);
    if n == WRITE_STEPS {
      assert Torn(image, n - 1) == image;
      ImageIsSealed(f, a, src, dst, len);
      SeriesOrder(Series(f.At(a)));
    } else if n > 0 {
      TornIsInvalid(image, n - 1);
    }
  }

  // ---------- The image is an update in place ----------

  /** The bytes a source holds before the write starts. */
  function SourceBytes(f: Flash, src: Source, len: nat): seq<byte>
    requires match src case Ram(bytes) => len <= |bytes| case InBank(_, offset) => offset + len <= BANK_SIZE
  {
    match src
    case Ram(bytes) => bytes[..len]
    case InBank(b, offset) => f.At(b)[offset..offset + len]
  }

  /** The array with the bytes written at dst; what would fall outside it is dropped. */
  function Splice(data: seq<byte>, dst: nat, bytes: seq<byte>): seq<byte> {
    seq(|data|, p requires 0 <= p < |data| => if dst <= p < dst + |bytes| then bytes[p - dst] else data[p])
  }

  /** The update a call asks for: none if its 32-bit range wraps round. */
  function Wanted(f: Flash, a: BankIndex, src: Source, dst: Uint32, len: Uint32): seq<byte>
    requires Writable(src, dst, len)
  {
    if dst + len < UINT32 then Splice(Current(f, a), dst, SourceBytes(f, src, len)) else Current(f, a)
  }

  predicate FromSpare(a: BankIndex, src: Source) {
    src.InBank? && src.bank != a
  }

  /** Some byte of the array is to change hands. */
  predicate Touches(dst: Uint32, len: Uint32) {
    len > 0 && dst < DATA_SIZE
  }

  lemma ImageCopies(f: Flash, a: BankIndex, src: Source, dst: Uint32, len: Uint32, p: nat)
    requires Writable(src, dst, len) && p < DATA_SIZE
    ensures Image(f, a, src, dst, len)[p] == CopiedByte(f, a, src, dst, len, p)
  {
    assert Image(f, a, src, dst, len)[p] == NewByte(f, a, src, dst, len, p);
  }

  lemma InPlace(f: Flash, a: BankIndex, src: Source, dst: Uint32, len: Uint32)
    requires Writable(src, dst, len) && (!FromSpare(a, src) || !Touches(dst, len) || dst + len >= UINT32)
    ensures Data(Image(f, a, src, dst, len)) == Wanted(f, a, src, dst, len)
  {
    var image, wanted := Image(f, a, src, dst, len), Wanted(f, a, src, dst, len);
    forall p | 0 <= p < DATA_SIZE
      ensures image[p] == wanted[p]
    {
      ImageCopies(f, a, src, dst, len, p);
      if Covered(dst, len, p) {
        CoveredIsPlain(dst, len, p);
      }
    }
  }

  /** A flash content on which a write from the spare bank misses what the caller asked for: the
      spare bank is all zeros, the active bank all ones but for its seal. */
  function Contrary(a: BankIndex): Flash {
    var ones: seq<byte> := seq(DATA_SIZE, _ => 1) + InfoBytes(1) + [1, 1, 1, 1];
    var zeros: seq<byte> := seq(BANK_SIZE, _ => 0);
    if a == 0 then Flash(ones, zeros) else Flash(zeros, ones)
  }

  lemma ContrarySelects(a: BankIndex)
    ensures Select(Contrary(a)) == a
  {
    hide Matches, Join, InfoBytes;
    var f := Contrary(a);
    assert f.At(a)[DATA_SIZE..DATA_SIZE + 4] == InfoBytes(1);
    InfoIsValid(f.At(a), 1);
    ZerosInvalid();
  }

  lemma ZerosInvalid()
    ensures !Matches(Join(0, 0), Join(0, 0))
  {}

  lemma ContraryFails(a: BankIndex, src: Source, dst: Uint32, len: Uint32)
    requires Writable(src, dst, len) && FromSpare(a, src) && Touches(dst, len) && dst + len < UINT32
    ensures Data(Image(Contrary(a), a, src, dst, len)) != Wanted(Contrary(a), a, src, dst, len)
  {
    hide InfoBytes, Series, Next;
    var f := Contrary(a);
    var image, wanted := Image(f, a, src, dst, len), Wanted(f, a, src, dst, len);
    assert Covered(dst, len, dst);
    var q := src.offset;
    ImageCopies(f, a, src, dst, len, dst);
    assert wanted[dst] == f.At(src.bank)[q] == 0;
    if q / BLOCK_SIZE < dst / BLOCK_SIZE {
      assert q < dst && !Covered(dst, len, q);
      assert CopiedByte(f, a, src, dst, len, dst) == NewByte(f, a, src, dst, len, q) == f.At(a)[q] == 1;
    } else {
      assert CopiedByte(f, a, src, dst, len, dst) == ERASED;
    }
  }

  /** Exactly when a call is an update in place whatever flash holds: unless it takes bytes for the
      array from the bank it is about to erase. */
  lemma InPlaceExactly(a: BankIndex, src: Source, dst: Uint32, len: Uint32)
    requires Writable(src, dst, len)
    ensures (forall f: Flash :: Select(f) == a ==> Data(Image(f, a, src, dst, len)) == Wanted(f, a, src, dst, len))
            <==> !(FromSpare(a, src) && Touches(dst, len) && dst + len < UINT32)
  {
    hide Image, Wanted, Select;
    if FromSpare(a, src) && Touches(dst, len) && dst + len < UINT32 {
      ContrarySelects(a);
      ContraryFails(a, src, dst, len);
    } else {
      forall f: Flash | Select(f) == a
        ensures Data(Image(f, a, src, dst, len)) == Wanted(f, a, src, dst, len)
      {
        InPlace(f, a, src, dst, len);
      }
    }
  }

  // ---------- Whole histories ----------

  /** A client writes from RAM, or from an address FBK_Address has just given it. */
  datatype Text = Bytes(bytes: seq<byte>) | At(offset: nat)

  /** `power` is the number of flash steps before power fails; a failure is followed by a boot. */
  datatype Command = Write(text: Text, dst: Uint32, len: Uint32, power: nat) | Reboot

  datatype State = State(flash: Flash, active: BankIndex)

  function SourceOf(s: State, text: Text): Source {
    match text
    case Bytes(b) => Ram(b)
    case At(offset) => InBank(s.active, offset)
  }

  /** The client reads no further than its RAM buffer or the 4088 bytes it owns. */
  predicate Proper(c: Command) {
    c.Write? && c.dst + c.len < UINT32 ==>
      match c.text
      case Bytes(b) => c.len <= |b|
      case At(offset) => offset + c.len <= DATA_SIZE
  }

  function Step(s: State, c: Command): State
    requires Proper(c)
  {
    match c
    case Reboot => s.(active := Select(s.flash))
    case Write(text, dst, len, power) =>
      if !Accepted(dst, len) then s
      else
        var g := After(s.flash, s.active, SourceOf(s, text), dst, len, Steps(power, WRITE_STEPS));
        if power < WRITE_STEPS then State(g, Select(g)) else State(g, 1 - s.active)
  }

  function Run(s: State, cs: seq<Command>): State
    requires forall c :: c in cs ==> Proper(c)
  {
    if cs == [] then s else Step(Run(s, cs[..|cs| - 1]), cs[|cs| - 1])
  }

  /** The same command on a plain array: a write that ends inside the bank and finds power enough puts
      its bytes in place, any other changes nothing. */
  function ArrayStep(data: seq<byte>, c: Command): (r: seq<byte>)
    requires Proper(c) && |data| == DATA_SIZE
    ensures |r| == DATA_SIZE
  {
    if c.Reboot? || c.power < WRITE_STEPS || c.dst + c.len >= BANK_SIZE then data
    else
      match c.text
      case Bytes(b) => Splice(data, c.dst, b[..c.len])
      case At(offset) => Splice(data, c.dst, data[offset..offset + c.len])
  }

  function ArrayRun(data: seq<byte>, cs: seq<Command>): (r: seq<byte>)
    requires |data| == DATA_SIZE && forall c :: c in cs ==> Proper(c)
    ensures |r| == DATA_SIZE
  {
    if cs == [] then data else ArrayStep(ArrayRun(data, cs[..|cs| - 1]), cs[|cs| - 1])
  }

  lemma StepRefines(s: State, c: Command)
    requires Proper(c) && s.active == Select(s.flash)
    ensures Step(s, c).active == Select(Step(s, c).flash)
    ensures Current(Step(s, c).flash, Step(s, c).active) == ArrayStep(Current(s.flash, s.active), c)
  {
    hide Select, After, Image, Wanted, Accepted, Readable, Splice;
    if c.Write? {
      AcceptedPlainly(c.dst, c.len);
      if Accepted(c.dst, c.len) {
        ProperIsReadable(s, c);
        var src, n := SourceOf(s, c.text), Steps(c.power, WRITE_STEPS);
        CrashAtomic(s.flash, s.active, src, c.dst, c.len, n);
        InPlace(s.flash, s.active, src, c.dst, c.len);
        WantedPlainly(s, c);
      }
    }
  }

  lemma AcceptedPlainly(dst: Uint32, len: Uint32)
    ensures Accepted(dst, len) <==> dst + len < BANK_SIZE || UINT32 <= dst + len < UINT32 + BANK_SIZE
  {
  }

  lemma ProperIsReadable(s: State, c: Command)
    requires Proper(c) && c.Write?
    ensures Readable(SourceOf(s, c.text), c.dst, c.len)
  {
  }

  /** What a call asks of flash is what the plain array does. */
  lemma WantedPlainly(s: State, c: Command)
    requires Proper(c) && c.Write? && Accepted(c.dst, c.len) && Readable(SourceOf(s, c.text), c.dst, c.len)
    ensures Wanted(s.flash, s.active, SourceOf(s, c.text), c.dst, c.len)
            == ArrayStep(Current(s.flash, s.active), c.(power := WRITE_STEPS))
  {
    hide Splice, Accepted;
    AcceptedPlainly(c.dst, c.len);
    if c.text.At? && c.dst + c.len < UINT32 {
      SameText(s.flash, s.active, c.text.offset, c.len);
    }
  }

  /** What one complete write of up to 4088 bytes leaves: its bytes in their place, all others as they
      were, in the bank that a boot would choose. */
  lemma WriteIsSeen(s: State, text: Text, dst: Uint32, len: Uint32, power: nat)
    requires s.active == Select(s.flash) && dst + len <= DATA_SIZE && power >= WRITE_STEPS
    requires match text case Bytes(b) => len <= |b| case At(offset) => offset + len <= DATA_SIZE
    ensures var data := s.flash.At(s.active)[..DATA_SIZE];
            var bytes := match text case Bytes(b) => b[..len] case At(offset) => data[offset..offset + len];
            var t := Step(s, Write(text, dst, len, power));
            && t.active == 1 - s.active == Select(t.flash)
            && t.flash.At(t.active)[..DATA_SIZE] == data[..dst] + bytes + data[dst + len..]
  {
    hide Select, After, Torn, Image, Valid, Follows;
    StepRefines(s, Write(text, dst, len, power));
  }

  lemma SameText(f: Flash, a: BankIndex, offset: nat, len: nat)
    requires offset + len <= DATA_SIZE
    ensures f.At(a)[offset..offset + len] == Current(f, a)[offset..offset + len]
  {
    assert f.At(a)[offset..offset + len] == f.At(a)[..DATA_SIZE][offset..offset + len];
  }

  /** Any history of writes, power losses and reboots, from any flash contents: the client sees an
      array updated in place, and a boot at the end would choose the bank in use. */
  lemma {:induction false} RunRefines(s: State, cs: seq<Command>)
    requires s.active == Select(s.flash) && forall c :: c in cs ==> Proper(c)
    ensures Run(s, cs).active == Select(Run(s, cs).flash)
    ensures Current(Run(s, cs).flash, Run(s, cs).active) == ArrayRun(Current(s.flash, s.active), cs)
  {
    hide Select, Step, ArrayStep;
    if cs != [] {
      var k := |cs| - 1;
      RunRefines(s, cs[..k]);
      StepRefines(Run(s, cs[..k]), cs[k]);
    }
  }

  // ---------- Addresses handed out earlier ----------

  predicate Completes(c: Command) {
    c.Write? && c.power >= WRITE_STEPS
  }

  lemma OtherBytesStay(s: State, c: Command, o: nat)
    requires o < DATA_SIZE && Proper(c) && Completes(c) && !(c.dst <= o < c.dst + c.len < UINT32)
    ensures Accepted(c.dst, c.len) ==>
              && Step(s, c).active == 1 - s.active
              && Step(s, c).flash.At(s.active) == s.flash.At(s.active)
              && Step(s, c).flash.At(1 - s.active)[o] == s.flash.At(s.active)[o]
  {
    hide Valid, Series, Follows, Image;
    if Accepted(c.dst, c.len) {
      var src := SourceOf(s, c.text);
      var image := Image(s.flash, s.active, src, c.dst, c.len);
      assert Torn(image, WRITE_STEPS - 1) == image;
      ImageCopies(s.flash, s.active, src, c.dst, c.len, o);
    }
  }

  /** An address FBK_Address gave out keeps showing the current byte while only other bytes are
      written, although each write moves the array to the other bank and erases this one. */
  lemma {:induction false} AddressStaysGood(s: State, cs: seq<Command>, o: nat)
    requires o < DATA_SIZE
    requires forall c :: c in cs ==> Proper(c) && Completes(c) && !(c.dst <= o < c.dst + c.len < UINT32)
    ensures Run(s, cs).flash.At(s.active)[o] == s.flash.At(s.active)[o]
    ensures Run(s, cs).flash.At(Run(s, cs).active)[o] == s.flash.At(s.active)[o]
  {
    if cs != [] {
      var k := |cs| - 1;
      AddressStaysGood(s, cs[..k], o);
      OtherBytesStay(Run(s, cs[..k]), cs[k], o);
      hide After, Select;
    }
  }
}
