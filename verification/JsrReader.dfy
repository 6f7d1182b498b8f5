/** Embedded/Sources/jsr.c as code: JSR_ENV with its buffers updated in place, and the functions
    that do so. Each is tied to the fold of module Jsr. */
module JsrReader {
  import opened Jsr

  class Reader {
    const keyStr: array<octet>
    const valueStr: array<octet>
    const matchCount: array<uint8>
    const pairs: array<Pair>
    var writeIdx: nat
    var readIdx: nat
    var options: Options
    var inQuotes: bool
    var colon: bool
    var httpBody: bool
    var errors: Errors
    var depth: nat
    var fifo4: uint32
    var objectCount: uint32
    var topLevelCount: uint32
    var arrayDepth: uint32

    ghost function Model(): Env
      reads this, keyStr, valueStr, matchCount, pairs
    {
      Env(options, keyStr[..], valueStr[..], writeIdx, inQuotes, colon, httpBody, errors, depth,
          matchCount[..], fifo4, objectCount, topLevelCount, arrayDepth, pairs[..])
    }

    ghost predicate Valid()
      reads this, keyStr, valueStr, matchCount, pairs
    {
      keyStr != valueStr && Model().Wf()
    }

    /** jsr_env_init followed by a caller's set-up: buffers and pairs of its own, all else zero. */
    constructor (keyStr: array<octet>, valueStr: array<octet>, pairs: array<Pair>, options: Options)
      requires keyStr != valueStr && 1 <= keyStr.Length && 1 <= valueStr.Length
      ensures Valid() && this.keyStr == keyStr && this.valueStr == valueStr && this.pairs == pairs && fresh(matchCount)
      ensures Model() == Env(options, keyStr[..], valueStr[..], 0, false, false, false, Errors(false, false, false, false),
                             0, seq(MAX_DEPTH, _ => 0), 0, 0, 0, 0, pairs[..])
      ensures readIdx == 0
    {
      this.keyStr, this.valueStr, this.pairs, this.options := keyStr, valueStr, pairs, options;
      matchCount := new uint8[MAX_DEPTH](_ => 0);
      writeIdx, readIdx, depth, fifo4, objectCount, topLevelCount, arrayDepth := 0, 0, 0, 0, 0, 0, 0;
      inQuotes, colon, httpBody := false, false, false;
      errors := Errors(false, false, false, false);
    }

    /** jsr_env_reset: the state goes, the options, the buffers and the object counters stay. */
    method Reset()
      requires Valid()
      modifies this, matchCount
      ensures Valid() && readIdx == 0
      ensures Model() == old(Model()).(matchCount := seq(MAX_DEPTH, _ => 0), inQuotes := false, colon := false,
                                       httpBody := false, errors := Errors(false, false, false, false),
                                       writeIdx := 0, depth := 0, fifo4 := 0)
    {
      for i := 0 to matchCount.Length
        modifies matchCount
        invariant forall j :: 0 <= j < i ==> matchCount[j] == 0
      {
        matchCount[i] := 0;
      }
      inQuotes, colon, httpBody := false, false, false;
      errors := Errors(false, false, false, false);
      readIdx, writeIdx, depth, fifo4 := 0, 0, 0, 0;
    }

    /** strcmp against the string in a buffer. */
    static method SameString(a: text, b: array<octet>) returns (same: bool)
      ensures same <==> CString(a) == CString(b[..])
    {
      var i := 0;
      while i < |a| && i < b.Length && a[i] == b[i] && a[i] != NUL
        invariant i <= |a| && i <= b.Length && a[..i] == b[..i]
        invariant forall j :: 0 <= j < i ==> a[j] != NUL
      {
        i := i + 1;
      }
      var endA := i == |a| || a[i] == NUL;
      var endB := i == b.Length || b[i] == NUL;
      same := endA && endB;
      CStringEnds(a, i);
      CStringEnds(b[..], i);
      if !same && CString(a) == CString(b[..]) {
        assert false;
      }
    }

    /** The body of the loop of jsr_match_pairs, for one pair. */
    method MatchPair(i: nat)
      requires Valid() && i < pairs.Length
      modifies this`errors, matchCount, pairs
      ensures var p, k, v := old(pairs[i]), CString(keyStr[..]), CString(valueStr[..]);
              && pairs[..] == old(pairs[..])[i := Touch(p, k, v, depth)]
              && matchCount[..] == Count(old(matchCount[..]), depth, if Hits(p, k, v) then 1 else 0)
              && errors == NoteError(old(errors), p, k, v)
    {
      hide CopyInto, CString, Add8;
      CountNothing(matchCount[..], depth);
      var p := pairs[i];
      var q, keyMatch, valueMatch := p, false, false;
      if p.givesKey {
        keyMatch := SameString(p.key, keyStr);
      }
      if p.givesValue {
        valueMatch := SameString(p.value, valueStr);
      }
      if p.givesKey == keyMatch && p.givesValue == valueMatch {
        matchCount[depth] := Add8(matchCount[depth], 1);
        q := q.(depth := depth);
      }
      if !(p.givesKey && p.givesValue) {
        if !p.givesKey && !p.givesValue {
          errors := errors.(emptyPair := true);
        }
        if keyMatch {
          if p.value == [] {
            errors := errors.(zeroLength := true);
          }
          q := q.(value := CopyInto(p.value, CString(valueStr[..])));
        }
        if valueMatch {
          if p.key == [] {
            errors := errors.(zeroLength := true);
          }
          q := q.(key := CopyInto(p.key, CString(keyStr[..])));
        }
      }
      pairs[i] := q;
    }

    /** jsr_match_pairs. */
    method MatchPairs()
      requires Valid()
      modifies this`errors, keyStr, valueStr, matchCount, pairs
      ensures Valid()
      ensures Model() == Jsr.MatchPairs(old(Model()))
    {
      if keyStr[0] == NUL && valueStr[0] == NUL {
        return;
      }
      ghost var e := Model();
      MatchEach();
      keyStr[0], valueStr[0] := NUL, NUL;
    }

    /** The loop of jsr_match_pairs. */
    method MatchEach()
      requires Valid()
      modifies this`errors, matchCount, pairs
      ensures var k, v := CString(keyStr[..]), CString(valueStr[..]);
              && pairs[..] == TouchAll(old(pairs[..]), k, v, depth)
              && matchCount[..] == Count(old(matchCount[..]), depth, CountHits(old(pairs[..]), k, v))
              && errors == NoteErrors(old(errors), old(pairs[..]), k, v)
    {
      hide Touch, Hits, TouchAll, CountHits, NoteErrors, NoteError, Count;
      ghost var ps, mc, es := pairs[..], matchCount[..], errors;
      ghost var k, v := CString(keyStr[..]), CString(valueStr[..]);
      NoPairs(es, ps, k, v, depth);
      CountNothing(mc, depth);
      for i := 0 to pairs.Length
        modifies this`errors, matchCount, pairs
        invariant pairs[..] == TouchAll(ps[..i], k, v, depth) + ps[i..]
        invariant matchCount[..] == Count(mc, depth, CountHits(ps[..i], k, v))
        invariant errors == NoteErrors(es, ps[..i], k, v)
      {
        assert pairs[i] == pairs[..][i] == ps[i];
        OneMorePair(es, ps, pairs[..], k, v, i, depth);
        MatchPair(i);
        CountTwice(mc, depth, CountHits(ps[..i], k, v), if Hits(ps[i], k, v) then 1 else 0);
      }
      assert ps[..pairs.Length] == ps;
    }

    /** The header filter at the top of the loop of jsr_read. */
    method FilterHeader(c: octet)
      requires Valid()
      modifies this`fifo4, this`httpBody
      ensures Valid() && Model() == Filter(old(Model()), c)
    {
      if options.skipHeader {
        fifo4 := Push(fifo4, c);
        if fifo4 == HEADER_DELIMITER {
          httpBody := true;
        }
      }
    }

    /** A character inside quotes. */
    method QuotedChar(c: octet)
      requires Valid() && inQuotes
      modifies this`inQuotes, this`writeIdx, this`errors, keyStr, valueStr
      ensures Valid() && Model() == Quoted(old(Model()), c)
    {
      if c == '"' {
        inQuotes := false;
      } else if colon {
        if writeIdx < valueStr.Length - 1 {
          valueStr[writeIdx] := c;
          valueStr[writeIdx + 1] := NUL;
          writeIdx := writeIdx + 1;
        } else {
          errors := errors.(valueOverflow := true);
        }
      } else {
        if writeIdx < keyStr.Length - 1 {
          keyStr[writeIdx] := c;
          keyStr[writeIdx + 1] := NUL;
          writeIdx := writeIdx + 1;
        } else {
          errors := errors.(keyOverflow := true);
        }
      }
    }

    /** '{' */
    method OpenObject()
      requires Valid() && !inQuotes && depth + 1 < MAX_DEPTH
      modifies this`depth, this`objectCount, this`topLevelCount, this`colon, matchCount, pairs
      ensures Valid() && Model() == Opened(old(Model()))
      ensures objectCount == (old(objectCount) + 1) % 0x1_0000_0000
      ensures topLevelCount == (old(topLevelCount) + if old(depth) == 0 then 1 else 0) % 0x1_0000_0000
    {
      depth := depth + 1;
      objectCount := Inc32(objectCount);
      if depth == 1 {
        topLevelCount := Inc32(topLevelCount);
      }
      ForgetEach();
      matchCount[depth] := 0;
      colon := false;
    }

    method ForgetEach()
      requires depth < 256
      modifies pairs
      ensures pairs[..] == ForgetAll(old(pairs[..]), depth)
    {
      for x := 0 to pairs.Length
        invariant forall j :: 0 <= j < pairs.Length ==>
                    pairs[j] == if j < x then Forget(old(pairs[j]), depth) else old(pairs[j])
      {
        var p := pairs[x];
        if p.depth == depth && p.transient {
          if p.givesKey && !p.givesValue {
            pairs[x] := p.(value := Clear(p.value));
          }
          if p.givesValue && !p.givesKey {
            pairs[x] := p.(key := Clear(p.key));
          }
        }
      }
    }

    /** '}' */
    method CloseObject() returns (ended: bool)
      requires Valid() && !inQuotes
      modifies this`errors, this`depth, keyStr, valueStr, matchCount, pairs
      ensures Valid() && Model() == Closed(old(Model()))
      ensures ended == Reports(Model())
    {
      hide CString, Jsr.MatchPairs;
      MatchPairs();
      if depth > 0 {
        depth := depth - 1;
      }
      if options.recurse {
        matchCount[depth] := Add8(matchCount[depth], matchCount[depth + 1]);
      }
      ended := depth >= options.minDepth && matchCount[depth + 1] >= options.threshold;
    }

    /** Any other character outside quotes. */
    method PlainChar(c: octet)
      requires Valid() && !inQuotes && c != '}'
      requires c == '{' ==> depth + 1 < MAX_DEPTH
      requires !Structural(c) && !Blank(c) && colon ==> writeIdx + 1 < valueStr.Length
      modifies this, keyStr, valueStr, matchCount, pairs
      ensures Valid() && Model() == Plain(old(Model()), c) && readIdx == old(readIdx)
    {
      hide CString, Jsr.MatchPairs, Opened;
      if c == '[' {
        arrayDepth := Inc32(arrayDepth);
      }
      if c == ']' {
        arrayDepth := Dec32(arrayDepth);
      }
      if c == ',' {
        MatchPairs();
        colon, writeIdx := false, 0;
      } else if c == '"' {
        inQuotes, writeIdx := true, 0;
      } else if c == ':' {
        colon, writeIdx := true, 0;
      } else if c == '{' {
        OpenObject();
      } else if c != ' ' && c != '\t' && c != '\n' && c != '\r' && c != '[' && c != ']' {
        if colon {
          valueStr[writeIdx] := c;
          valueStr[writeIdx + 1] := NUL;
          writeIdx := writeIdx + 1;
        }
      }
    }

    /** One round of the loop of jsr_read. */
    method FeedOne(c: octet) returns (ended: bool)
      requires Valid() && Safe(Model(), c)
      modifies this, keyStr, valueStr, matchCount, pairs
      ensures Valid() && Model() == Feed(old(Model()), c) && readIdx == old(readIdx)
      ensures ended == Ends(old(Model()), c)
    {
      hide CString, Quoted, Closed, Plain, Reports;
      ended := false;
      FilterHeader(c);
      if options.skipHeader && !httpBody {
        return;
      }
      if inQuotes {
        QuotedChar(c);
      } else if c == '}' {
        ended := CloseObject();
      } else {
        PlainChar(c);
      }
    }

    /** jsr_read: from readIdx on, to the first report or the end of the chunk. */
    method Read(buffer: array<octet>, size: nat) returns (ended: bool)
      requires Valid() && buffer != keyStr && buffer != valueStr
      requires readIdx <= size <= buffer.Length && SafeAll(Model(), buffer[readIdx..size])
      modifies this, keyStr, valueStr, matchCount, pairs
      ensures Valid() && buffer[..] == old(buffer[..])
      ensures var call := ReadCall(old(Model()), buffer[old(readIdx)..size]);
              && Model() == call.env && ended == call.ended
              && readIdx == if ended then old(readIdx) + call.used else 0
    {
      hide Feed, Safe, SafeAll, Ends, Env.Wf, ReadCall;
      ghost var start := readIdx;
      ghost var whole := ReadCall(Model(), buffer[readIdx..size]);
      while readIdx < size
        invariant Valid() && start <= readIdx <= size && SafeAll(Model(), buffer[readIdx..size])
        invariant var call := ReadCall(Model(), buffer[readIdx..size]);
                  whole == Call(call.env, readIdx - start + call.used, call.ended)
      {
        ghost var rest := buffer[readIdx..size];
        assert rest[0] == buffer[readIdx] && rest[1..] == buffer[readIdx + 1..size];
        ReadOnce(Model(), rest);
        ended := FeedOne(buffer[readIdx]);
        readIdx := readIdx + 1;
        if ended {
          return;
        }
      }
      ReadNone(Model());
      readIdx := 0;
      ended := false;
    }

    /** The callers' loop over one chunk: what the pairs held at each report. */
    method DriveChunk(buffer: array<octet>, size: nat) returns (events: seq<seq<Pair>>)
      requires Valid() && buffer != keyStr && buffer != valueStr
      requires readIdx == 0 && size <= buffer.Length && SafeAll(Model(), buffer[..size])
      modifies this, keyStr, valueStr, matchCount, pairs
      ensures Valid() && readIdx == 0 && Outcome(Model(), events) == Drive(old(Model()), buffer[..size])
    {
      hide ReadCall, Drive, SafeAll, Env.Wf, CString;
      events := [];
      ghost var whole := Drive(Model(), buffer[..size]);
      ghost var rest := buffer[..size];
      var ended := Read(buffer, size);
      DriveOnce(old(Model()), rest);
      assert ended ==> rest[ReadCall(old(Model()), rest).used..] == buffer[readIdx..size];
      while ended
        invariant Valid() && readIdx <= size
        invariant ended ==>
                    && SafeAll(Model(), buffer[readIdx..size])
                    && whole == Outcome(Drive(Model(), buffer[readIdx..size]).env,
                                        events + [pairs[..]] + Drive(Model(), buffer[readIdx..size]).events)
        invariant !ended ==> readIdx == 0 && whole == Outcome(Model(), events)
        decreases ended, size - readIdx
      {
        events := events + [pairs[..]];
        rest := buffer[readIdx..size];
        ghost var e := Model();
        ended := Read(buffer, size);
        DriveOnce(e, rest);
        assert ended ==> rest[ReadCall(e, rest).used..] == buffer[readIdx..size];
      }
    }
  }

  lemma ReadOnce(e: Env, s: text)
    requires e.Wf() && SafeAll(e, s) && s != []
    ensures Safe(e, s[0]) && SafeAll(Feed(e, s[0]), s[1..])
    ensures var r := ReadCall(Feed(e, s[0]), s[1..]);
            ReadCall(e, s) == if Ends(e, s[0]) then Call(Feed(e, s[0]), 1, true) else Call(r.env, 1 + r.used, r.ended)
  {
    hide Feed, Safe, Ends, Env.Wf;
  }

  lemma ReadNone(e: Env)
    requires e.Wf() && SafeAll(e, [])
    ensures ReadCall(e, []) == Call(e, 0, false)
  {}

  lemma DriveOnce(e: Env, s: text)
    requires e.Wf() && SafeAll(e, s)
    ensures var c := ReadCall(e, s);
            Drive(e, s) == if !c.ended then Outcome(c.env, [])
                           else Outcome(Drive(c.env, s[c.used..]).env, [c.env.pairs] + Drive(c.env, s[c.used..]).events)
  {}

  lemma CountTwice(mc: seq<uint8>, d: nat, n: nat, m: nat)
    requires d < |mc|
    ensures Count(Count(mc, d, n), d, m) == Count(mc, d, n + m)
  {}

  lemma CountNothing(mc: seq<uint8>, d: nat)
    requires d < |mc|
    ensures Count(mc, d, 0) == mc
  {}

  lemma NoPairs(e: Errors, ps: seq<Pair>, k: text, v: text, depth: uint8)
    ensures TouchAll(ps[..0], k, v, depth) == [] && CountHits(ps[..0], k, v) == 0 && NoteErrors(e, ps[..0], k, v) == e
  {}

  lemma OneMorePair(e: Errors, ps: seq<Pair>, now: seq<Pair>, k: text, v: text, i: nat, depth: uint8)
    requires i < |ps| && now == TouchAll(ps[..i], k, v, depth) + ps[i..]
    ensures now[i := Touch(ps[i], k, v, depth)] == TouchAll(ps[..i + 1], k, v, depth) + ps[i + 1..]
    ensures CountHits(ps[..i + 1], k, v) == CountHits(ps[..i], k, v) + if Hits(ps[i], k, v) then 1 else 0
    ensures NoteErrors(e, ps[..i + 1], k, v) == NoteError(NoteErrors(e, ps[..i], k, v), ps[i], k, v)
  {
    hide Touch, Hits;
    assert ps[..i + 1][..i] == ps[..i];
  }

  lemma {:induction false} CStringEnds(a: text, i: nat)
    requires i <= |a| && forall j :: 0 <= j < i ==> a[j] != NUL
    ensures if i == |a| || a[i] == NUL then CString(a) == a[..i] else |CString(a)| > i && CString(a)[i] == a[i] && CString(a)[..i] == a[..i]
  {
  }
}
