/** Embedded/Sources/Flash.c: what a boot does with the data area after the two program flash blocks were
    swapped. The block that is low then holds the newer data, which is copied to the high block before
    anything is written again.

    Power can fail between any two flash steps: `power` is the number of steps the device will still
    carry out, each the erase of one sector or the programming of one phrase. */
module BootRecovery {
  import opened Crc
  import opened Words

  type Phrase = p: seq<byte> | |p| == 8 witness [0xFF, 0xFF, 0xFF, 0xFF, 0xFF, 0xFF, 0xFF, 0xFF]
  /** The data area of one block, from 0xdb000 or 0x5b000 on, in phrases. */
  type Area = a: seq<Phrase> | |a| == 18432 witness seq(18432, _ => BLANK)

  const BLANK: Phrase := [0xFF, 0xFF, 0xFF, 0xFF, 0xFF, 0xFF, 0xFF, 0xFF]
  const SIZE: nat := 18432
  const SECTOR: nat := 512
  const SECTORS: nat := 36
  /** The sector of the system properties: the title, the properties and their check word; then the
      extended properties behind theirs. */
  const TITLE_AT: nat := 17920
  const SYSTEM_AT: nat := 17921
  const SYSTEM_SIZE: nat := 19
  const EXT_CRC_AT: nat := 17940
  const EXT_AT: nat := 17941
  const EXT_SIZE: nat := 15
  const CRC_AT: nat := 18430
  const SAVE_WRITES: nat := 37
  const CANARY: seq<byte> := [0x4D, 0x4D, 0x37]

  function Blanks(n: nat): (ps: seq<Phrase>)
    ensures |ps| == n && forall k :: 0 <= k < n ==> ps[k] == BLANK
  {
    seq(n, _ => BLANK)
  }

  function Flatten(ps: seq<Phrase>): seq<byte> {
    if ps == [] then [] else ps[0] + Flatten(ps[1..])
  }

  function Check(ps: seq<Phrase>): word {
    Crc16(0xFFFF, Flatten(ps))
  }

  function WordIn(p: Phrase): word {
    Join(p[0], p[1])
  }

  /** A check word as it is programmed. */
  function WordPhrase(w: word): Phrase {
    [LowByte(w), HighByte(w), 0xFF, 0xFF, 0xFF, 0xFF, 0xFF, 0xFF]
  }

  lemma WordRoundTrip(w: word)
    ensures WordIn(WordPhrase(w)) == w
    ensures w == 0xFFFF ==> WordPhrase(w) == BLANK
    ensures WordIn(BLANK) == 0xFFFF
  {
  }

  // ---------- Choosing a block ----------

  predicate HasCanary(title: Phrase) {
    title[..3] == CANARY
  }

  /** The canary is there and the check word fits the title and the properties. */
  predicate Valid(a: Area) {
    HasCanary(a[TITLE_AT]) && WordIn(a[CRC_AT]) == Check(a[TITLE_AT..EXT_CRC_AT])
  }

  function Index(a: Area): (i: int)
    ensures -1 <= i < 256
  {
    if Valid(a) then Number(a[TITLE_AT][3]) else -1
  }

  datatype Block = Neither | Low | High

  /** Which of two indexes, -1 for an invalid block, is the newer. */
  function Newer(low: int, high: int): Block {
    if low == -1 && high == -1 then Neither
    else if low == 0 && high == 0xFF then Low
    else if high == 0 && low == 0xFF then High
    else if high > low then High
    else Low
  }

  function Which(low: Area, high: Area): Block {
    Newer(Index(low), Index(high))
  }

  // ---------- RAM ----------

  /** The variables the two boot functions fill: the properties as they lie in memory, with the four
      bytes behind them that are programmed along to fill the last phrase. */
  datatype Ram = Ram(next: byte, mac: seq<byte>, system: seq<Phrase>, ext: seq<Phrase>)

  predicate RamFits(r: Ram) {
    |r.mac| == 3 && |r.system| == SYSTEM_SIZE && |r.ext| == EXT_SIZE
  }

  /** The phrase with the two offsets is as it should be: the effective one is the other, or an hour more. */
  predicate OffsetsAgree(p: Phrase) {
    var gmt, effective := JoinFour(p[0], p[1], p[2], p[3]), JoinFour(p[4], p[5], p[6], p[7]);
    effective == gmt || effective == gmt + 3600
  }

  function OffsetsSet(p: Phrase): Phrase {
    if OffsetsAgree(p) then p else p[..4] + p[..4]
  }

  lemma OffsetsSetAgree(p: Phrase)
    ensures OffsetsAgree(OffsetsSet(p)) && OffsetsSet(OffsetsSet(p)) == OffsetsSet(p)
  {
    hide JoinFour;
  }

  const OFFSETS: nat := 17

  /** The properties of an area over those in memory. */
  function SystemIn(a: Area, over: seq<Phrase>): (s: seq<Phrase>)
    requires |over| == SYSTEM_SIZE
    ensures |s| == SYSTEM_SIZE
  {
    a[SYSTEM_AT..SYSTEM_AT + OFFSETS] + [OffsetsSet(a[SYSTEM_AT + OFFSETS])]
    + [a[SYSTEM_AT + 18][..4] + over[18][4..]]
  }

  predicate ExtValid(a: Area) {
    WordIn(a[EXT_CRC_AT]) == Check(a[EXT_AT..EXT_AT + EXT_SIZE])
  }

  /** What LoadSystemPropertiesFromFlash leaves in RAM. */
  function Loaded(a: Area, r: Ram): (after: Ram)
    requires RamFits(r)
    ensures RamFits(after) && after.next == r.next
  {
    if Valid(a) then
      Ram(r.next, a[TITLE_AT][4..7], SystemIn(a, r.system), if ExtValid(a) then a[EXT_AT..EXT_AT + EXT_SIZE] else r.ext)
    else r
  }

  predicate MustResave(a: Area, next: byte) {
    Valid(a) && (a[TITLE_AT][3] != next || !OffsetsAgree(a[SYSTEM_AT + OFFSETS]))
  }

  // ---------- Saving ----------

  function Title(r: Ram): Phrase
    requires RamFits(r)
  {
    CANARY + [r.next] + r.mac + [0xFF]
  }

  /** The place of a phrase in the order SaveSystemPropertiesToFlash programs them: the properties, the
      extended properties, their check word, the title, and last the check word over title and
      properties. All others stay erased. */
  function Order(i: nat): nat {
    if SYSTEM_AT <= i < SYSTEM_AT + SYSTEM_SIZE then i - SYSTEM_AT
    else if EXT_AT <= i < EXT_AT + EXT_SIZE then 19 + (i - EXT_AT)
    else if i == EXT_CRC_AT then 34
    else if i == TITLE_AT then 35
    else if i == CRC_AT then 36
    else SAVE_WRITES
  }

  function Content(r: Ram, i: nat): Phrase
    requires RamFits(r)
  {
    if SYSTEM_AT <= i < SYSTEM_AT + SYSTEM_SIZE then r.system[i - SYSTEM_AT]
    else if EXT_AT <= i < EXT_AT + EXT_SIZE then r.ext[i - EXT_AT]
    else if i == EXT_CRC_AT then WordPhrase(Check(r.ext))
    else if i == TITLE_AT then Title(r)
    else if i == CRC_AT then WordPhrase(Check([Title(r)] + r.system))
    else BLANK
  }

  function SavingPhrase(r: Ram, k: nat, i: nat): Phrase
    requires RamFits(r)
  {
    if Order(i) < k then Content(r, i) else BLANK
  }

  function SavingSector(r: Ram, k: nat): (s: seq<Phrase>)
    requires RamFits(r)
    ensures |s| == SECTOR && forall i :: 0 <= i < SECTOR ==> s[i] == SavingPhrase(r, k, TITLE_AT + i)
  {
    seq<Phrase>(SECTOR, i requires 0 <= i < SECTOR => SavingPhrase(r, k, TITLE_AT + i))
  }

  /** An area in the middle of a save: its last sector erased, and the first k phrases programmed. */
  function Saving(a: Area, r: Ram, k: nat): (s: Area)
    requires RamFits(r)
    ensures forall i :: 0 <= i < SIZE ==>
              s[i] == if i < TITLE_AT then a[i] else if Order(i) < k then Content(r, i) else BLANK
  {
    a[..TITLE_AT] + SavingSector(r, k)
  }

  function Saved(a: Area, r: Ram): Area
    requires RamFits(r)
  {
    Saving(a, r, SAVE_WRITES)
  }

  /** The area after the first steps of a save. */
  function SavedFor(a: Area, r: Ram, steps: nat): Area
    requires RamFits(r)
  {
    if steps == 0 then a else if steps <= SAVE_WRITES then Saving(a, r, steps - 1) else Saved(a, r)
  }

  /** These phrases follow each other in the order from the j-th on. */
  predicate IsRun(r: Ram, at: nat, data: seq<Phrase>, j: nat)
    requires RamFits(r)
  {
    j + |data| <= SAVE_WRITES
    && forall i :: at <= i < at + |data| ==> Order(i) == j + (i - at) && Content(r, i) == data[i - at]
  }

  // ---------- Copying ----------

  function Erasing(a: Area, sectors: nat): Area
    requires sectors <= SECTORS
  {
    Blanks(sectors * SECTOR) + a[sectors * SECTOR..]
  }

  function Copying(low: Area, phrases: nat): Area
    requires phrases <= SIZE
  {
    low[..phrases] + Blanks(SIZE - phrases)
  }

  const COPY_STEPS: nat := 18468

  /** The high area after the first steps of the copy from the low one. */
  function CopiedFor(low: Area, high: Area, steps: nat): Area {
    if steps <= SECTORS then Erasing(high, steps)
    else if steps <= COPY_STEPS then Copying(low, steps - SECTORS)
    else low
  }

  // ---------- A boot ----------

  /** The RAM a boot from the low block has when it saves. */
  function Recovered(low: Area, r: Ram): (after: Ram)
    requires RamFits(r)
    ensures RamFits(after)
  {
    Loaded(low, r.(next := low[TITLE_AT][3] + 1))
  }

  /** The high area after a boot with a given number of flash steps before the power fails. */
  function Booted(low: Area, high: Area, r: Ram, power: nat): Area
    requires RamFits(r)
  {
    match Which(low, high)
    case Neither => high
    case Low => if power <= COPY_STEPS then CopiedFor(low, high, power) else SavedFor(low, Recovered(low, r), power - COPY_STEPS)
    case High =>
      var next := high[TITLE_AT][3];
      if MustResave(high, next) then SavedFor(high, Loaded(high, r.(next := next)), power) else high
  }

  /** Enough steps for any boot. */
  const BOOT_STEPS: nat := COPY_STEPS + 1 + SAVE_WRITES

  class Controller {
    const low: array<Phrase>
    const high: array<Phrase>
    var power: nat
    var ram: Ram

    ghost predicate Sized()
      reads this
    {
      low.Length == high.Length == SIZE && low != high && RamFits(ram)
    }

    constructor (low: array<Phrase>, high: array<Phrase>, ram: Ram, power: nat)
      requires low.Length == high.Length == SIZE && low != high && RamFits(ram)
      ensures Sized() && this.low == low && this.high == high && this.ram == ram && this.power == power
    {
      this.low, this.high, this.ram, this.power := low, high, ram, power;
    }

    /** FlashEraseSector, one sector a step. */
    method EraseSectors(first: nat, sectors: nat)
      requires high.Length == SIZE && first + sectors <= SECTORS
      modifies high, this`power
      ensures var n := if old(power) < sectors then old(power) else sectors;
              power == old(power) - n
              && high[..] == old(high[..first * SECTOR]) + Blanks(n * SECTOR) + old(high[(first + n) * SECTOR..])
    {
      ghost var n := 0;
      for s := first to first + sectors
        invariant n <= s - first && power == old(power) - n && (n < s - first ==> power == 0)
        invariant high[..] == old(high[..first * SECTOR]) + Blanks(n * SECTOR) + old(high[(first + n) * SECTOR..])
      {
        if power > 0 {
          forall i | s * SECTOR <= i < (s + 1) * SECTOR {
            high[i] := BLANK;
          }
          power := power - 1;
          n := n + 1;
        }
      }
    }

    method ProgramPhrase(at: nat, p: Phrase)
      requires at < high.Length && power > 0 && high[at] == BLANK
      modifies high, this`power
      ensures power == old(power) - 1 && high[..] == old(high[..])[at := p]
    {
      high[at] := p;
      power := power - 1;
    }

    /** FlashProgramPhrase, one phrase a step, and only over erased ones. */
    method ProgramPhrases(at: nat, data: seq<Phrase>)
      requires high.Length == SIZE && at + |data| <= SIZE
      requires power > 0 ==> high[at..at + |data|] == Blanks(|data|)
      modifies high, this`power
      ensures var n := if old(power) < |data| then old(power) else |data|;
              power == old(power) - n && high[..] == old(high[..at]) + data[..n] + old(high[at + n..])
    {
      ghost var n, was := 0, high[..];
      for k := 0 to |data|
        invariant n <= k && power == old(power) - n && (n < k ==> power == 0)
        invariant n <= |data| && high[..] == was[..at] + data[..n] + was[at + n..]
      {
        if power > 0 {
          ghost var now := high[..];
          assert was[at..at + |data|][k] == Blanks(|data|)[k] == BLANK;
          NextPhrase(was, now, at, data, n);
          ProgramPhrase(at + k, data[k]);
          n := n + 1;
        }
      }
    }

    /** A run of phrases of a save, from the j-th in the order on. */
    method SavePhrases(at: nat, data: seq<Phrase>, ghost a: Area, ghost j: nat)
      requires Sized() && TITLE_AT <= at && at + |data| <= SIZE
      requires IsRun(ram, at, data, j)
      requires power > 0 ==> high[..] == Saving(a, ram, j)
      modifies high, this`power
      ensures var n := if old(power) < |data| then old(power) else |data|;
              power == old(power) - n && high[..] == if old(power) > 0 then Saving(a, ram, j + n) else old(high[..])
    {
      hide Content, Order, IsRun, Saving;
      ghost var was, n := high[..], if power < |data| then power else |data|;
      if power > 0 {
        BlankAhead(a, ram, at, data, j);
        assert high[at..at + |data|] == Blanks(|data|);
      }
      ProgramPhrases(at, data);
      if old(power) > 0 {
        SavingOn(a, ram, at, data, j, n);
      } else {
        NoneProgrammed(was, at, data);
      }
    }

    /** The first half of a save: the properties and the extended properties with their check word. */
    method SaveProperties(ghost a: Area)
      requires Sized() && high[..] == a
      modifies high, this`power
      ensures power == old(power) - (if old(power) < 36 then old(power) else 36)
      ensures high[..] == if old(power) <= 36 then SavedFor(a, ram, old(power)) else Saving(a, ram, 35)
    {
      hide Content, Order, Check, WordPhrase, Saving, IsRun;
      SaveOrder(ram);
      ErasedToSave(a, ram);
      EraseSectors(SECTORS - 1, 1);
      SavePhrases(SYSTEM_AT, ram.system, a, 0);
      SavePhrases(EXT_AT, ram.ext, a, 19);
      SavedRanges(a, ram, 34);
      var crc := Check(high[EXT_AT..EXT_AT + EXT_SIZE]);
      SaveWord(EXT_CRC_AT, crc, Check(ram.ext), a, 34);
    }

    /** SaveSystemPropertiesToFlash */
    method SaveSystemPropertiesToFlash()
      requires Sized()
      modifies high, this`power
      ensures power == old(power) - (if old(power) < 1 + SAVE_WRITES then old(power) else 1 + SAVE_WRITES)
      ensures high[..] == SavedFor(old(high[..]), ram, old(power))
    {
      hide Content, Order, Check, Title, WordPhrase, Saving, IsRun;
      ghost var a := high[..];
      SaveOrder(ram);
      SaveProperties(a);
      SavePhrases(TITLE_AT, [Title(ram)], a, 35);
      SavedRanges(a, ram, 36);
      var crc := Check(high[TITLE_AT..EXT_CRC_AT]);
      SaveWord(CRC_AT, crc, Check([Title(ram)] + ram.system), a, 36);
    }

    method SaveWord(at: nat, w: word, ghost expected: word, ghost a: Area, ghost j: nat)
      requires Sized() && TITLE_AT <= at < SIZE && IsRun(ram, at, [WordPhrase(expected)], j)
      requires power > 0 ==> w == expected && high[..] == Saving(a, ram, j)
      modifies high, this`power
      ensures power == (if old(power) == 0 then 0 else old(power) - 1)
      ensures high[..] == if old(power) > 0 then Saving(a, ram, j + 1) else old(high[..])
    {
      hide Content, Order, WordPhrase;
      if power > 0 {
        SavePhrases(at, [WordPhrase(w)], a, j);
      } else {
        ghost var was := high[..];
        ProgramPhrases(at, [WordPhrase(w)]);
        NoneProgrammed(was, at, [WordPhrase(w)]);
      }
    }

    /** The index a block gives itself, or -1 where its canary or its check word is wrong. */
    method BlockIndex(block: array<Phrase>) returns (index: int)
      requires block.Length == SIZE
      ensures index == Index(block[..])
    {
      hide Check, HasCanary, WordIn, Number;
      index := -1;
      if HasCanary(block[TITLE_AT]) {
        var calculatedCRCValue := Check(block[TITLE_AT..EXT_CRC_AT]);
        assert block[..][TITLE_AT..EXT_CRC_AT] == block[TITLE_AT..EXT_CRC_AT];
        if WordIn(block[CRC_AT]) == calculatedCRCValue {
          index := Number(block[TITLE_AT][3]);
        }
      }
    }

    /** WhichFlashBlockToUse */
    method WhichFlashBlockToUse() returns (blockToUse: Block)
      requires Sized()
      ensures blockToUse == Which(low[..], high[..])
    {
      hide Index;
      var lowBlockIndex := BlockIndex(low);
      var highBlockIndex := BlockIndex(high);
      if lowBlockIndex == -1 && highBlockIndex == -1 {
        blockToUse := Neither;
      } else if lowBlockIndex == 0 && highBlockIndex == 0xFF {
        blockToUse := Low;
      } else if highBlockIndex == 0 && lowBlockIndex == 0xFF {
        blockToUse := High;
      } else if highBlockIndex > lowBlockIndex {
        blockToUse := High;
      } else {
        blockToUse := Low;
      }
    }

    /** The copy of the low block to the high one, whole sectors erased first. */
    method CopyLow()
      requires Sized()
      modifies high, this`power
      ensures power == old(power) - (if old(power) < COPY_STEPS then old(power) else COPY_STEPS)
      ensures high[..] == CopiedFor(low[..], old(high[..]), old(power))
    {
      hide CopiedFor, Erasing, Copying;
      ghost var a, before := high[..], power;
      ghost var n := if before < SECTORS then before else SECTORS;
      EraseSectors(0, SECTORS);
      ErasedFirst(a, n);
      ghost var erased, left := high[..], power;
      if left > 0 {
        AllErased(a);
        assert high[0..SIZE] == erased;
      }
      ProgramPhrases(0, low[..]);
      CopiedFirst(low[..], a, before, erased, if left < SIZE then left else SIZE);
    }

    /** InitializeFlash, its work on the data area. */
    method InitializeFlash()
      requires Sized()
      modifies high, this`power, this`ram
      ensures Sized()
      ensures match Which(low[..], old(high[..]))
              case Low =>
                ram == old(ram).(next := low[TITLE_AT][3] + 1)
                && power == old(power) - (if old(power) < COPY_STEPS then old(power) else COPY_STEPS)
                && high[..] == CopiedFor(low[..], old(high[..]), old(power))
              case High => ram == old(ram).(next := high[TITLE_AT][3]) && power == old(power) && high[..] == old(high[..])
              case Neither => ram == old(ram).(next := 1) && power == old(power) && high[..] == old(high[..])
    {
      hide Which, CopiedFor;
      var blockIndex := WhichFlashBlockToUse();
      if blockIndex == Low {
        ram := ram.(next := low[TITLE_AT][3] + 1);
      } else if blockIndex == High {
        ram := ram.(next := high[TITLE_AT][3]);
      } else {
        ram := ram.(next := 1);
        return;
      }
      if blockIndex == Low {
        CopyLow();
      }
    }

    /** LoadSystemPropertiesFromFlash */
    method LoadSystemPropertiesFromFlash() returns (error: bool)
      requires Sized()
      modifies high, this`power, this`ram
      ensures Sized() && error == !Valid(old(high[..])) && ram == Loaded(old(high[..]), old(ram))
      ensures high[..] == if MustResave(old(high[..]), old(ram).next) then SavedFor(old(high[..]), ram, old(power))
                          else old(high[..])
    {
      hide Check, HasCanary, WordIn, OffsetsAgree, SavedFor;
      var mustResaveFlashFlag := false;
      ghost var a := high[..];
      error := !Valid(high[..]);
      if !error {
        if high[TITLE_AT][3] != ram.next {
          mustResaveFlashFlag := true;
        }
        var mac := high[TITLE_AT][4..7];
        var last := high[SYSTEM_AT + 18][..4] + ram.system[18][4..];
        var system := high[SYSTEM_AT..SYSTEM_AT + 18] + [last];
        assert system[OFFSETS] == high[SYSTEM_AT + OFFSETS];
        if !OffsetsAgree(system[OFFSETS]) {
          system := system[OFFSETS := system[OFFSETS][..4] + system[OFFSETS][..4]];
          mustResaveFlashFlag := true;
        }
        assert system == SystemIn(a, ram.system);
        var ext := ram.ext;
        assert a[EXT_AT..EXT_AT + EXT_SIZE] == high[EXT_AT..EXT_AT + EXT_SIZE];
        if WordIn(high[EXT_CRC_AT]) == Check(high[EXT_AT..EXT_AT + EXT_SIZE]) {
          ext := high[EXT_AT..EXT_AT + EXT_SIZE];
        }
        ram := Ram(ram.next, mac, system, ext);
      }
      if mustResaveFlashFlag {
        SaveSystemPropertiesToFlash();
      }
    }

    /** The part of a boot that decides what the data area holds. */
    method Boot()
      requires Sized()
      modifies high, this`power, this`ram
      ensures Sized() && high[..] == Booted(low[..], old(high[..]), old(ram), old(power))
    {
      hide Check, OffsetsAgree, SavedFor, CopiedFor, Which, Valid, MustResave, Loaded;
      InitializeFlash();
      NoStepsLeft(high[..], ram);
      CopyDone(low[..], old(high[..]));
      NoResaveOfNothing(low[..], old(high[..]), ram.next);
      var error := LoadSystemPropertiesFromFlash();
    }
  }

  lemma NoneProgrammed(was: seq<Phrase>, at: nat, data: seq<Phrase>)
    requires at <= |was|
    ensures was[..at] + data[..0] + was[at..] == was
  {
  }

  lemma NextPhrase(was: seq<Phrase>, now: seq<Phrase>, at: nat, data: seq<Phrase>, n: nat)
    requires n < |data| && at + |data| <= |was| == |now| && now == was[..at] + data[..n] + was[at + n..]
    ensures now[at + n] == was[at + n] && now[at + n := data[n]] == was[..at] + data[..n + 1] + was[at + n + 1..]
  {
  }

  lemma ErasedFirst(a: Area, n: nat)
    requires n <= SECTORS
    ensures a[..0] + Blanks(n * SECTOR) + a[n * SECTOR..] == Erasing(a, n)
  {
  }

  lemma AllErased(a: Area)
    ensures Erasing(a, SECTORS) == Blanks(SIZE)
  {
  }

  lemma CopiedFirst(low: Area, high: Area, power: nat, erased: Area, n: nat)
    requires erased == Erasing(high, if power < SECTORS then power else SECTORS)
    requires n == (if power <= SECTORS then 0 else if power < COPY_STEPS then power - SECTORS else SIZE)
    ensures erased[..0] + low[..n] + erased[n..] == CopiedFor(low, high, power)
  {
    if power <= SECTORS {
      assert erased[..0] + low[..0] + erased[0..] == erased;
    } else {
      AllErased(high);
      assert erased[n..] == Blanks(SIZE - n);
      assert erased[..0] + low[..n] + erased[n..] == low[..n] + Blanks(SIZE - n);
      CopyDone(low, high);
    }
  }

  lemma NoStepsLeft(a: Area, r: Ram)
    requires RamFits(r)
    ensures forall r' :: RamFits(r') ==> SavedFor(a, r', 0) == a
  {
  }

  lemma CopyDone(low: Area, high: Area)
    ensures CopiedFor(low, high, COPY_STEPS) == low
    ensures forall k :: k > COPY_STEPS ==> CopiedFor(low, high, k) == low
  {
    assert low[..SIZE] + Blanks(0) == low;
  }

  /** Where no block is valid there is nothing to save again, and what was copied always is. */
  lemma NoResaveOfNothing(low: Area, high: Area, next: byte)
    ensures Which(low, high) == Neither ==> !MustResave(high, next)
    ensures Which(low, high) == Low ==> MustResave(low, low[TITLE_AT][3] + 1)
    ensures Which(low, high) == High ==> Valid(high)
  {
    hide Check, HasCanary, WordIn, OffsetsAgree;
    assert low[TITLE_AT][3] != low[TITLE_AT][3] + 1;
  }

  /** Each phrase of a save has its own place in the order. */
  lemma OrderInjective(i: nat, k: nat)
    requires Order(i) == Order(k) < SAVE_WRITES
    ensures i == k
  {
  }

  /** The runs of phrases a save programs. */
  lemma SaveOrder(r: Ram)
    requires RamFits(r)
    ensures IsRun(r, SYSTEM_AT, r.system, 0) && IsRun(r, EXT_AT, r.ext, 19)
    ensures IsRun(r, EXT_CRC_AT, [WordPhrase(Check(r.ext))], 34)
    ensures IsRun(r, TITLE_AT, [Title(r)], 35)
    ensures IsRun(r, CRC_AT, [WordPhrase(Check([Title(r)] + r.system))], 36)
  {
  }

  lemma ErasedToSave(a: Area, r: Ram)
    requires RamFits(r)
    ensures a[..TITLE_AT] + Blanks(SECTOR) + a[SIZE..] == Saving(a, r, 0)
    ensures a[..TITLE_AT] + Blanks(0) + a[TITLE_AT..] == a
  {
    hide Content, Order;
  }

  /** What a save reads back of itself to check it. */
  lemma SavedRanges(a: Area, r: Ram, k: nat)
    requires RamFits(r)
    ensures k >= 34 ==> Saving(a, r, k)[EXT_AT..EXT_AT + EXT_SIZE] == r.ext
    ensures k >= 36 ==> Saving(a, r, k)[TITLE_AT..EXT_CRC_AT] == [Title(r)] + r.system
  {
    SaveOrder(r);
    if k >= 34 {
      RunSaved(a, r, EXT_AT, r.ext, 19, k);
      RunSaved(a, r, SYSTEM_AT, r.system, 0, k);
    }
    if k >= 36 {
      RunSaved(a, r, TITLE_AT, [Title(r)], 35, k);
      var s := Saving(a, r, k);
      assert s[TITLE_AT..EXT_CRC_AT] == s[TITLE_AT..SYSTEM_AT] + s[SYSTEM_AT..EXT_CRC_AT];
    }
  }

  lemma RunSaved(a: Area, r: Ram, at: nat, data: seq<Phrase>, j: nat, k: nat)
    requires RamFits(r) && TITLE_AT <= at && at + |data| <= SIZE && IsRun(r, at, data, j) && j + |data| <= k
    ensures Saving(a, r, k)[at..at + |data|] == data
  {
    hide Content, Order;
  }

  lemma BlankAhead(a: Area, r: Ram, at: nat, data: seq<Phrase>, j: nat)
    requires RamFits(r) && TITLE_AT <= at && at + |data| <= SIZE && IsRun(r, at, data, j)
    ensures Saving(a, r, j)[at..at + |data|] == Blanks(|data|)
  {
    hide Content, Order;
  }

  lemma SavingOn(a: Area, r: Ram, at: nat, data: seq<Phrase>, j: nat, n: nat)
    requires RamFits(r) && TITLE_AT <= at && at + |data| <= SIZE && n <= |data| && IsRun(r, at, data, j)
    ensures Saving(a, r, j)[..at] + data[..n] + Saving(a, r, j)[at + n..] == Saving(a, r, j + n)
  {
    hide Content, Order, Saving;
    var s, t := Saving(a, r, j), Saving(a, r, j + n);
    var u := s[..at] + data[..n] + s[at + n..];
    forall i | 0 <= i < SIZE
      ensures u[i] == t[i]
    {
      PhraseOn(a, r, at, data, j, n, i);
    }
  }

  lemma PhraseOn(a: Area, r: Ram, at: nat, data: seq<Phrase>, j: nat, n: nat, i: nat)
    requires RamFits(r) && TITLE_AT <= at && at + |data| <= SIZE && n <= |data| && IsRun(r, at, data, j) && i < SIZE
    ensures Saving(a, r, j + n)[i] == if at <= i < at + n then data[i - at] else Saving(a, r, j)[i]
  {
    hide Content, Order;
    if !(at <= i < at + n) && j <= Order(i) < j + n {
      var k := at + (Order(i) - j);
      assert Order(k) == Order(i);
      OrderInjective(i, k);
    }
  }
}
