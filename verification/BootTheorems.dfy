/** A boot that recovers the data area can be cut off after any step, any number of times. */
module BootTheorems {
  import opened Crc
  import opened BootRecovery
  import opened Words

  /** The data area every recovery from a low block ends with. */
  function Final(low: Area, r: Ram): Area
    requires RamFits(r)
  {
    Saved(low, Recovered(low, r))
  }

  lemma BlankInvalid(a: Area)
    requires a[TITLE_AT] == BLANK
    ensures Index(a) == -1
  {
    assert BLANK[..3][0] == 0xFF && CANARY[0] == 0x4D;
  }

  /** Where a block says something, its index decides; where the high one is invalid or says the same,
      the low one is chosen. */
  lemma LowChosen(low: Area, high: Area)
    requires Index(low) != -1 && (Index(high) == -1 || Index(high) == Index(low))
    ensures Which(low, high) == Low
  {
  }

  /** The low block holds the newer properties, or the same: it alone is valid, or its index is one ahead
      of the other, counted in a byte, or equal to it. */
  predicate LowLeads(low: Area, high: Area) {
    Valid(low) && (Valid(high) ==> low[TITLE_AT][3] == high[TITLE_AT][3] + 1 || low[TITLE_AT][3] == high[TITLE_AT][3])
  }

  predicate HighLeads(low: Area, high: Area) {
    Valid(high) && (Valid(low) ==> high[TITLE_AT][3] == low[TITLE_AT][3] + 1)
  }

  /** The block one ahead is used, also where the index wraps from 255 to 0, and so is a block that alone
      is valid. */
  lemma NewerIsUsed(low: Area, high: Area)
    ensures LowLeads(low, high) ==> Which(low, high) == Low
    ensures HighLeads(low, high) ==> Which(low, high) == High
    ensures !Valid(low) && !Valid(high) ==> Which(low, high) == Neither
  {
    hide Valid, Number;
    var l, h := low[TITLE_AT][3], high[TITLE_AT][3];
    NextNumber(l);
    NextNumber(h);
    NumberBelow(l);
    NumberBelow(h);
  }

  lemma NumberBelow(b: byte)
    ensures 0 <= Number(b) < 256
  {
  }

  lemma LowIsValid(low: Area, high: Area)
    requires Which(low, high) == Low
    ensures Valid(low) && Index(low) == Number(low[TITLE_AT][3])
  {
    hide HasCanary, WordIn, Check;
  }

  lemma SameIndex(a: Area, b: Area)
    requires a[TITLE_AT] == b[TITLE_AT]
    requires Valid(b)
    ensures Index(a) == -1 || Index(a) == Index(b)
  {
    hide HasCanary, WordIn, Check;
  }

  /** While sectors are erased and copied, the low block stays the one to use. */
  lemma CopyingKeepsLow(low: Area, high: Area, steps: nat)
    requires Which(low, high) == Low && steps <= COPY_STEPS
    ensures Which(low, CopiedFor(low, high, steps)) == Low
  {
    hide Valid, Which;
    LowIsValid(low, high);
    var after := CopiedFor(low, high, steps);
    if steps < SECTORS {
      ErasingKeepsProperties(high, steps);
      SameProperties(low, high, after);
    } else if steps <= SECTORS + TITLE_AT {
      assert after[TITLE_AT] == BLANK;
      BlankInvalid(after);
      ValidIndex(low);
      LowChosen(low, after);
    } else {
      assert after[TITLE_AT] == low[TITLE_AT];
      SameIndex(after, low);
      ValidIndex(low);
      LowChosen(low, after);
    }
  }

  lemma ValidIndex(a: Area)
    requires Valid(a)
    ensures Index(a) != -1
  {
  }

  lemma ErasingKeepsProperties(high: Area, steps: nat)
    requires steps < SECTORS
    ensures Erasing(high, steps)[TITLE_AT..EXT_CRC_AT] == high[TITLE_AT..EXT_CRC_AT]
    ensures Erasing(high, steps)[TITLE_AT] == high[TITLE_AT] && Erasing(high, steps)[CRC_AT] == high[CRC_AT]
  {
    var after := Erasing(high, steps);
    assert forall i :: TITLE_AT <= i < SIZE ==> after[i] == high[i];
  }

  lemma SameProperties(low: Area, high: Area, after: Area)
    requires after[TITLE_AT..EXT_CRC_AT] == high[TITLE_AT..EXT_CRC_AT]
    requires after[TITLE_AT] == high[TITLE_AT] && after[CRC_AT] == high[CRC_AT]
    ensures Which(low, after) == Which(low, high)
  {
    hide HasCanary, WordIn, Check, Newer;
  }

  // ---------- The save at the end ----------

  lemma TitleOf(r: Ram)
    requires RamFits(r)
    ensures HasCanary(Title(r)) && Title(r)[3] == r.next && Title(r)[4..7] == r.mac
  {
  }

  /** The title, the check words and the properties of a block that is saved up to its last phrase. */
  lemma SavedParts(a: Area, r: Ram, k: nat)
    requires RamFits(r) && 36 <= k
    ensures var s := Saving(a, r, k);
            s[TITLE_AT] == Title(r) && s[TITLE_AT..EXT_CRC_AT] == [Title(r)] + r.system
            && s[EXT_AT..EXT_AT + EXT_SIZE] == r.ext && s[EXT_CRC_AT] == WordPhrase(Check(r.ext))
            && s[CRC_AT] == if k == 36 then BLANK else WordPhrase(Check([Title(r)] + r.system))
  {
    hide Title, Check, WordPhrase;
    SavedRanges(a, r, k);
  }

  /** A completed save is valid under its own index. */
  lemma SavedIsValid(a: Area, r: Ram)
    requires RamFits(r)
    ensures Valid(Saved(a, r)) && Index(Saved(a, r)) == Number(r.next)
  {
    hide HasCanary, WordIn, Check, WordPhrase, Title, Saving;
    SavedParts(a, r, SAVE_WRITES);
    TitleOf(r);
    WordRoundTrip(Check([Title(r)] + r.system));
  }

  /** Without its last phrase a save is invalid, or there was nothing left to program. */
  lemma LastPhraseMissing(a: Area, r: Ram)
    requires RamFits(r)
    ensures var s := Saving(a, r, 36);
            s == Saved(a, r) || Index(s) == -1
  {
    hide HasCanary, WordIn, Check, WordPhrase, Title, Saving;
    var s, all := Saving(a, r, 36), Saved(a, r);
    SavedParts(a, r, 36);
    SavedParts(a, r, SAVE_WRITES);
    var w := Check([Title(r)] + r.system);
    WordRoundTrip(w);
    if w == 0xFFFF {
      OneMissing(a, r);
    }
  }

  lemma OneMissing(a: Area, r: Ram)
    requires RamFits(r) && Content(r, CRC_AT) == BLANK
    ensures Saving(a, r, 36) == Saved(a, r)
  {
    hide Content;
    var s, all := Saving(a, r, 36), Saved(a, r);
    forall i | 0 <= i < SIZE
      ensures s[i] == all[i]
    {
    }
  }

  /** At every step of the save the low block stays the one to use, until the high one is as it will be. */
  lemma SavingKeepsLow(low: Area, r: Ram, steps: nat)
    requires RamFits(r) && Valid(low)
    ensures var after := SavedFor(low, r, steps);
            Which(low, after) == Low || after == Saved(low, r)
    ensures steps > SAVE_WRITES ==> SavedFor(low, r, steps) == Saved(low, r)
  {
    hide Valid, Which, Content, Saving;
    ValidIndex(low);
    if steps == 0 {
      LowChosen(low, low);
    } else if steps <= 36 {
      TitleLater(low, r, steps - 1);
      BlankInvalid(Saving(low, r, steps - 1));
      LowChosen(low, Saving(low, r, steps - 1));
    } else if steps == 37 {
      LastPhraseMissing(low, r);
      if Index(Saving(low, r, 36)) == -1 {
        LowChosen(low, Saving(low, r, 36));
      }
    }
  }

  lemma TitleLater(a: Area, r: Ram, k: nat)
    requires RamFits(r) && k <= 35
    ensures Saving(a, r, k)[TITLE_AT] == BLANK
  {
    hide Content;
  }

  // ---------- Whole boots ----------

  /** A recovery cut off after any number of steps leaves the low block to be used again, or the high one
      already as it will be; with enough steps it is. */
  lemma InterruptedRecovery(low: Area, high: Area, r: Ram, power: nat)
    requires RamFits(r) && Which(low, high) == Low
    ensures var after := Booted(low, high, r, power);
            Which(low, after) == Low || after == Final(low, r)
    ensures power >= BOOT_STEPS ==> Booted(low, high, r, power) == Final(low, r)
  {
    hide Which, CopiedFor, SavedFor, Saving, Recovered;
    LowIsValid(low, high);
    if power <= COPY_STEPS {
      CopyingKeepsLow(low, high, power);
    } else {
      SavingKeepsLow(low, Recovered(low, r), power - COPY_STEPS);
    }
  }

  /** The same, from what the two blocks hold. */
  lemma InterruptedSwap(low: Area, high: Area, r: Ram, power: nat)
    requires RamFits(r) && LowLeads(low, high)
    ensures var after := Booted(low, high, r, power);
            Which(low, after) == Low || (HighLeads(low, after) && after == Final(low, r))
    ensures power >= BOOT_STEPS ==> Booted(low, high, r, power) == Final(low, r)
  {
    hide Which, Booted, Final, Valid;
    NewerIsUsed(low, high);
    InterruptedRecovery(low, high, r, power);
    FinalLeads(low, r);
  }

  lemma NextNumber(b: byte)
    ensures Number(b + 1) == if Number(b) == 255 then 0 else Number(b) + 1
  {
    assert Number(b) == 255 <==> b == 255;
  }

  /** Once it is, the high block is the newer one, also where the index wraps round. */
  lemma FinalIsHigh(low: Area, r: Ram)
    requires RamFits(r) && Valid(low)
    ensures Which(low, Final(low, r)) == High
  {
    hide Which, Final, Valid;
    FinalLeads(low, r);
    NewerIsUsed(low, Final(low, r));
  }

  lemma FinalLeads(low: Area, r: Ram)
    requires RamFits(r) && Valid(low)
    ensures HighLeads(low, Final(low, r))
  {
    hide Valid, Saving, Number, Title, Check;
    var after := Recovered(low, r);
    SavedIsValid(low, after);
    SavedParts(low, after, SAVE_WRITES);
    TitleOf(after);
  }

  /** And it is left as it is by every later boot, whatever RAM holds at it. */
  lemma FinalStays(low: Area, r: Ram, later: Ram, power: nat)
    requires RamFits(r) && RamFits(later) && Valid(low)
    ensures Booted(low, Final(low, r), later, power) == Final(low, r)
  {
    hide Valid, Saving, Which, OffsetsAgree, Recovered, SavedFor;
    FinalIsHigh(low, r);
    FinalOffsets(low, r);
  }

  lemma FinalOffsets(low: Area, r: Ram)
    requires RamFits(r) && Valid(low)
    ensures OffsetsAgree(Final(low, r)[SYSTEM_AT + OFFSETS])
  {
    hide Valid, Saving, OffsetsAgree, OffsetsSet, Title, Check;
    var after := Recovered(low, r);
    var s := Final(low, r);
    SavedParts(low, after, SAVE_WRITES);
    var both := [Title(after)] + after.system;
    assert s[SYSTEM_AT + OFFSETS] == s[TITLE_AT..EXT_CRC_AT][1 + OFFSETS] == both[1 + OFFSETS];
    assert after.system[OFFSETS] == OffsetsSet(low[SYSTEM_AT + OFFSETS]);
    OffsetsSetAgree(low[SYSTEM_AT + OFFSETS]);
  }

  /** One boot: the flash steps its power lasts for, and RAM as it finds it. */
  datatype Start = Start(power: nat, ram: Ram)

  predicate AllFit(boots: seq<Start>) {
    forall b :: b in boots ==> RamFits(b.ram)
  }

  /** The high area after these boots. */
  function Boots(low: Area, high: Area, boots: seq<Start>): Area
    requires AllFit(boots)
    decreases |boots|
  {
    if boots == [] then high
    else
      assert boots[0] in boots && forall b :: b in boots[1..] ==> b in boots;
      Boots(low, Booted(low, high, boots[0].ram, boots[0].power), boots[1..])
  }

  /** The high area is as a recovery in one of these boots would complete it. */
  ghost predicate IsFinal(low: Area, high: Area, boots: seq<Start>)
    requires AllFit(boots)
  {
    exists b :: b in boots && high == Final(low, b.ram)
  }

  /** Cut off however often, wherever: the low block stays the one to use until a recovery is complete,
      and the first boot that is not cut off completes one. Then the high block is used. */
  lemma {:induction false} RecoverySurvivesCrashes(low: Area, high: Area, boots: seq<Start>)
    requires AllFit(boots) && Which(low, high) == Low
    ensures var after := Boots(low, high, boots);
            (Which(low, after) == Low || (Which(low, after) == High && IsFinal(low, after, boots)))
            && ((exists b :: b in boots && b.power >= BOOT_STEPS) ==> IsFinal(low, after, boots) && Which(low, after) == High)
    decreases |boots|
  {
    hide Which, Booted, Final, Valid, RamFits;
    LowIsValid(low, high);
    if boots != [] {
      var b, rest := boots[0], boots[1..];
      assert b in boots && forall x :: x in rest ==> x in boots;
      InterruptedRecovery(low, high, b.ram, b.power);
      FinalIsHigh(low, b.ram);
      var after := Booted(low, high, b.ram, b.power);
      if after == Final(low, b.ram) {
        FinalForGood(low, b.ram, rest);
      } else {
        assert forall x :: x in boots ==> x == b || x in rest;
        RecoverySurvivesCrashes(low, after, rest);
      }
    }
  }

  /** The same from what the two blocks hold after new firmware was put into the low one. */
  lemma SwapSurvivesCrashes(low: Area, high: Area, boots: seq<Start>)
    requires AllFit(boots) && LowLeads(low, high)
    ensures var after := Boots(low, high, boots);
            (Which(low, after) == Low || (HighLeads(low, after) && IsFinal(low, after, boots)))
            && ((exists b :: b in boots && b.power >= BOOT_STEPS) ==> HighLeads(low, after) && IsFinal(low, after, boots))
  {
    hide Which, Boots, Final, Valid, RamFits;
    NewerIsUsed(low, high);
    RecoverySurvivesCrashes(low, high, boots);
    var after := Boots(low, high, boots);
    if IsFinal(low, after, boots) {
      var b :| b in boots && after == Final(low, b.ram);
      FinalLeads(low, b.ram);
    }
  }

  lemma {:induction false} FinalForGood(low: Area, r: Ram, boots: seq<Start>)
    requires RamFits(r) && Valid(low) && AllFit(boots)
    ensures Boots(low, Final(low, r), boots) == Final(low, r)
    decreases |boots|
  {
    hide Booted, Final, Valid, RamFits;
    if boots != [] {
      assert boots[0] in boots && forall b :: b in boots[1..] ==> b in boots;
      FinalStays(low, r, boots[0].ram, boots[0].power);
      FinalForGood(low, r, boots[1..]);
    }
  }

  /** RAM before loading matters to the final area only by the four bytes behind the properties, and by
      the extended properties where the low block has none that are valid. */
  lemma FinalIgnoresRam(low: Area, r: Ram, r': Ram)
    requires RamFits(r) && RamFits(r') && Valid(low)
    requires r.system[18][4..] == r'.system[18][4..] && (ExtValid(low) || r.ext == r'.ext)
    ensures Final(low, r) == Final(low, r')
  {
    hide Saving, Valid, ExtValid, OffsetsSet;
    assert Recovered(low, r) == Recovered(low, r');
  }

  /** What survives: the sectors before the last as the low block had them; in it its properties, its
      address, and its extended properties if they were valid. */
  lemma FinalHoldsLow(low: Area, r: Ram)
    requires RamFits(r) && Valid(low)
    ensures var s := Final(low, r);
            s[..TITLE_AT] == low[..TITLE_AT]
            && s[TITLE_AT][4..7] == low[TITLE_AT][4..7]
            && s[SYSTEM_AT..SYSTEM_AT + OFFSETS] == low[SYSTEM_AT..SYSTEM_AT + OFFSETS]
            && s[SYSTEM_AT + 18] == low[SYSTEM_AT + 18][..4] + r.system[18][4..]
            && s[EXT_AT..EXT_AT + EXT_SIZE] == (if ExtValid(low) then low[EXT_AT..EXT_AT + EXT_SIZE] else r.ext)
            && ExtValid(s)
  {
    hide Valid, Check, WordPhrase, WordIn, OffsetsSet, Title, OffsetsAgree;
    var after := Recovered(low, r);
    var s := Final(low, r);
    SavedParts(low, after, SAVE_WRITES);
    TitleOf(after);
    WordRoundTrip(Check(after.ext));
    SystemOf(low, r.(next := low[TITLE_AT][3] + 1));
    assert s[..TITLE_AT] == low[..TITLE_AT];
  }

  /** The properties in a sector saved from what was loaded from a block. */
  lemma SystemOf(a: Area, r: Ram)
    requires RamFits(r) && Valid(a)
    ensures var s := Saved(a, Loaded(a, r));
            && s[SYSTEM_AT..SYSTEM_AT + OFFSETS] == a[SYSTEM_AT..SYSTEM_AT + OFFSETS]
            && s[SYSTEM_AT + OFFSETS] == OffsetsSet(a[SYSTEM_AT + OFFSETS])
            && s[SYSTEM_AT + 18] == a[SYSTEM_AT + 18][..4] + r.system[18][4..]
  {
    hide Valid, Check, WordPhrase, WordIn, OffsetsSet, Title, Saving;
    var after := Loaded(a, r);
    var s := Saved(a, after);
    SavedParts(a, after, SAVE_WRITES);
    var both := [Title(after)] + after.system;
    forall i | 0 <= i < 19
      ensures s[SYSTEM_AT + i] == after.system[i]
    {
      assert s[TITLE_AT..EXT_CRC_AT][1 + i] == both[1 + i];
    }
    assert after.system == SystemIn(a, r.system);
  }

  /** Of its two offsets the first survives as it was, and the second if it is the first or an hour more;
      otherwise it becomes the first. */
  lemma FinalHoldsOffsets(low: Area, r: Ram)
    requires RamFits(r) && Valid(low)
    ensures var p, q := low[SYSTEM_AT + 17], Final(low, r)[SYSTEM_AT + 17];
            var gmt, effective := JoinFour(p[0], p[1], p[2], p[3]), JoinFour(p[4], p[5], p[6], p[7]);
            && q[..4] == p[..4]
            && JoinFour(q[4], q[5], q[6], q[7]) == (if effective == gmt + 3600 then effective else gmt)
  {
    hide Valid, Loaded, Saved, JoinFour;
    SystemOf(low, r.(next := low[TITLE_AT][3] + 1));
    assert OFFSETS == 17;
  }

  // ---------- Boots with nothing to recover ----------

  /** Without a valid block nothing is touched. */
  lemma NothingValid(low: Area, high: Area, r: Ram, power: nat)
    requires RamFits(r) && !Valid(low) && !Valid(high)
    ensures Booted(low, high, r, power) == high
  {
    hide Valid;
    NewerIsUsed(low, high);
  }

  /** A high block in use is left alone if its second offset is the first or an hour more. If not, a boot
      that is not cut off sets it to the first and keeps everything else but the four bytes behind the
      properties. */
  lemma HighInUse(low: Area, high: Area, r: Ram, power: nat)
    requires RamFits(r) && HighLeads(low, high)
    ensures var p, s := high[SYSTEM_AT + 17], Booted(low, high, r, power);
            var gmt, effective := JoinFour(p[0], p[1], p[2], p[3]), JoinFour(p[4], p[5], p[6], p[7]);
            if effective == gmt || effective == gmt + 3600 then s == high
            else power >= BOOT_STEPS ==>
              && Valid(s) && s[TITLE_AT][3..7] == high[TITLE_AT][3..7] && s[..TITLE_AT] == high[..TITLE_AT]
              && s[SYSTEM_AT..SYSTEM_AT + 17] == high[SYSTEM_AT..SYSTEM_AT + 17]
              && s[SYSTEM_AT + 17] == p[..4] + p[..4] && s[SYSTEM_AT + 18][..4] == high[SYSTEM_AT + 18][..4]
  {
    hide Valid, Loaded, Saving, JoinFour, Which, HighLeads, Title, Check;
    NewerIsUsed(low, high);
    HighIsValid(low, high);
    assert OFFSETS == 17;
    if !OffsetsAgree(high[SYSTEM_AT + 17]) && power >= BOOT_STEPS {
      var before := r.(next := high[TITLE_AT][3]);
      var after := Loaded(high, before);
      SavedIsValid(high, after);
      SystemOf(high, before);
      SavedParts(high, after, SAVE_WRITES);
      TitleOf(after);
      LoadedTitle(high, before);
      SavedOutside(high, after);
    }
  }

  lemma HighIsValid(low: Area, high: Area)
    requires HighLeads(low, high)
    ensures Valid(high) && Index(high) == Number(high[TITLE_AT][3])
  {
    hide Valid;
  }

  lemma LoadedTitle(a: Area, r: Ram)
    requires RamFits(r)
    ensures Valid(a) ==> Loaded(a, r).mac == a[TITLE_AT][4..7]
  {
    hide Valid, SystemIn;
  }

  lemma SavedOutside(a: Area, r: Ram)
    requires RamFits(r)
    ensures Saved(a, r)[..TITLE_AT] == a[..TITLE_AT]
  {
    hide Content;
  }
}
