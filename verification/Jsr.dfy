/** Embedded/Sources/jsr.c as a fold: what one character does to the reader's state, and what a
    stream does. Every field of JSR_ENV but read_idx, which belongs to the chunk being read, is here. */
module Jsr {

  /** A byte of the stream; `char` is unsigned on the target. */
  type octet = c: char | c as int < 256 witness ' '
  type text = seq<octet>
  type uint8 = n: nat | n < 256
  type uint32 = n: nat | n < 0x1_0000_0000

  const NUL: octet := '\0'
  const MAX_DEPTH: nat := 12
  const HEADER_DELIMITER: nat := 0x0D0A_0D0A

  // ---------- C strings in buffers ----------

  /** The string a buffer holds: what stands before its first NUL. */
  function CString(buffer: text): (r: text)
    ensures |r| <= |buffer| && r == buffer[..|r|]
    ensures |r| < |buffer| ==> buffer[|r|] == NUL
    ensures forall i :: 0 <= i < |r| ==> r[i] != NUL
  {
    if buffer == [] || buffer[0] == NUL then [] else [buffer[0]] + CString(buffer[1..])
  }

  /** strncpy into a buffer, with the buffer's size as the limit. */
  function CopyInto(buffer: text, s: text): (r: text)
    ensures |r| == |buffer|
  {
    if |s| >= |buffer| then s[..|buffer|] else s + seq(|buffer| - |s|, _ => NUL)
  }

  /** Make a buffer's string empty. */
  function Clear(buffer: text): (r: text)
    ensures |r| == |buffer|
  {
    if buffer == [] then [] else buffer[0 := NUL]
  }

  // ---------- State ----------

  /** A JSR_PAIR: a field whose option bit is set is given, the other one is captured. */
  datatype Pair = Pair(key: text, value: text, givesKey: bool, givesValue: bool, transient: bool, depth: uint8)

  datatype Options = Options(skipHeader: bool, recurse: bool, threshold: uint8, minDepth: uint8)

  datatype Errors = Errors(valueOverflow: bool, keyOverflow: bool, emptyPair: bool, zeroLength: bool)

  datatype Env = Env(
    options: Options,
    key: text, value: text, writeIdx: nat,
    inQuotes: bool, colon: bool, httpBody: bool,
    errors: Errors,
    depth: nat, matchCount: seq<uint8>,
    fifo4: uint32, objectCount: uint32, topLevelCount: uint32, arrayDepth: uint32,
    pairs: seq<Pair>)
  {
    /** The buffers exist, and what the reader writes next has a place in them. */
    predicate Wf() {
      && 1 <= |key| && 1 <= |value| && |matchCount| == MAX_DEPTH && depth < MAX_DEPTH
      && (inQuotes ==> writeIdx < if colon then |value| else |key|)
      && (colon && !inQuotes ==> writeIdx < |value|)
    }

    /** The reader is past any header it was told to skip. */
    predicate Listening() {
      options.skipHeader ==> httpBody
    }
  }

  function Inc32(n: uint32): uint32 { (n + 1) % 0x1_0000_0000 }
  function Dec32(n: uint32): uint32 { (n + 0xFFFF_FFFF) % 0x1_0000_0000 }
  function Add8(a: nat, b: nat): uint8 { (a + b) % 256 }

  /** n more at depth d, in 8-bit arithmetic. */
  function Count(mc: seq<uint8>, d: nat, n: nat): (r: seq<uint8>)
    requires d < |mc|
    ensures |r| == |mc|
  {
    mc[d := Add8(mc[d], n)]
  }

  // ---------- Matching ----------

  /** Every field the pair gives equals what was read. */
  predicate Hits(p: Pair, k: text, v: text) {
    (p.givesKey ==> CString(p.key) == k) && (p.givesValue ==> CString(p.value) == v)
  }

  /** A hit notes the depth and captures the field that is not given. */
  function Touch(p: Pair, k: text, v: text, depth: uint8): Pair {
    if !Hits(p, k, v) then p
    else if p.givesKey && !p.givesValue then p.(depth := depth, value := CopyInto(p.value, v))
    else if p.givesValue && !p.givesKey then p.(depth := depth, key := CopyInto(p.key, k))
    else p.(depth := depth)
  }

  function TouchAll(ps: seq<Pair>, k: text, v: text, depth: uint8): (r: seq<Pair>)
    ensures |r| == |ps|
  {
    seq(|ps|, i requires 0 <= i < |ps| => Touch(ps[i], k, v, depth))
  }

  function CountHits(ps: seq<Pair>, k: text, v: text): nat {
    if ps == [] then 0
    else CountHits(ps[..|ps| - 1], k, v) + if Hits(ps[|ps| - 1], k, v) then 1 else 0
  }

  function NoteError(e: Errors, p: Pair, k: text, v: text): Errors {
    var copies := Hits(p, k, v) && p.givesKey != p.givesValue;
    e.(emptyPair := e.emptyPair || (!p.givesKey && !p.givesValue),
       zeroLength := e.zeroLength || (copies && (if p.givesKey then p.value else p.key) == []))
  }

  function NoteErrors(e: Errors, ps: seq<Pair>, k: text, v: text): Errors {
    if ps == [] then e else NoteError(NoteErrors(e, ps[..|ps| - 1], k, v), ps[|ps| - 1], k, v)
  }

  /** jsr_match_pairs: offer the pair of strings just read to every pair of interest. */
  function MatchPairs(e: Env): (r: Env)
    requires e.Wf()
    ensures r.Wf()
  {
    if e.key[0] == NUL && e.value[0] == NUL then e
    else
      var k, v := CString(e.key), CString(e.value);
      e.(pairs := TouchAll(e.pairs, k, v, e.depth),
         matchCount := Count(e.matchCount, e.depth, CountHits(e.pairs, k, v)),
         errors := NoteErrors(e.errors, e.pairs, k, v),
         key := Clear(e.key), value := Clear(e.value))
  }

  /** A captured field recorded at this depth is forgotten when a new object begins there. */
  function Forget(p: Pair, depth: nat): Pair {
    if p.depth == depth && p.transient then
      if p.givesKey && !p.givesValue then p.(value := Clear(p.value))
      else if p.givesValue && !p.givesKey then p.(key := Clear(p.key))
      else p
    else p
  }

  function ForgetAll(ps: seq<Pair>, depth: nat): (r: seq<Pair>)
    ensures |r| == |ps|
  {
    seq(|ps|, i requires 0 <= i < |ps| => Forget(ps[i], depth))
  }

  // ---------- One character ----------

  predicate Blank(c: octet) {
    c == ' ' || c == '\t' || c == '\n' || c == '\r'
  }

  predicate Structural(c: octet) {
    c == ',' || c == '"' || c == ':' || c == '{' || c == '}' || c == '[' || c == ']'
  }

  /** A 32-bit register shifted left by eight bits, and the character put in. */
  function Push(fifo: uint32, c: octet): uint32 {
    fifo % 0x100_0000 * 256 + c as int
  }

  /** The header filter: the last four characters, and whether the body has begun. */
  function Filter(e: Env, c: octet): (r: Env)
    ensures e.Wf() ==> r.Wf()
    ensures e.Listening() ==> r.Listening()
  {
    if !e.options.skipHeader then e
    else
      var fifo := Push(e.fifo4, c);
      e.(fifo4 := fifo, httpBody := e.httpBody || fifo == HEADER_DELIMITER)
  }

  /** The character stays within the buffers and the depth table. The code checks neither the depth
      table when it opens an object nor the value buffer when it stores an unquoted value. */
  predicate Safe(e: Env, c: octet) {
    var e := Filter(e, c);
    e.Listening() && !e.inQuotes ==>
      && (c == '{' ==> e.depth + 1 < MAX_DEPTH)
      && (!Structural(c) && !Blank(c) && e.colon ==> e.writeIdx + 1 < |e.value|)
  }

  function Quoted(e: Env, c: octet): (r: Env)
    requires e.Wf() && e.inQuotes
    ensures r.Wf()
  {
    if c == '"' then e.(inQuotes := false)
    else if e.colon then
      if e.writeIdx < |e.value| - 1
      then e.(value := e.value[e.writeIdx := c][e.writeIdx + 1 := NUL], writeIdx := e.writeIdx + 1)
      else e.(errors := e.errors.(valueOverflow := true))
    else
      if e.writeIdx < |e.key| - 1
      then e.(key := e.key[e.writeIdx := c][e.writeIdx + 1 := NUL], writeIdx := e.writeIdx + 1)
      else e.(errors := e.errors.(keyOverflow := true))
  }

  function Opened(e: Env): (r: Env)
    requires e.Wf() && !e.inQuotes && e.depth + 1 < MAX_DEPTH
    ensures r.Wf()
  {
    var d := e.depth + 1;
    e.(depth := d,
       objectCount := Inc32(e.objectCount),
       topLevelCount := if d == 1 then Inc32(e.topLevelCount) else e.topLevelCount,
       pairs := ForgetAll(e.pairs, d),
       matchCount := e.matchCount[d := 0],
       colon := false)
  }

  function Closed(e: Env): (r: Env)
    requires e.Wf() && !e.inQuotes
    ensures r.Wf()
  {
    var m := MatchPairs(e);
    var d := if m.depth > 0 then m.depth - 1 else 0;
    m.(depth := d,
       matchCount := if m.options.recurse
                     then Count(m.matchCount, d, m.matchCount[d + 1]) else m.matchCount)
  }

  /** After an object closed: its count reached the threshold, and it is deep enough to tell. */
  predicate Reports(e: Env)
    requires e.Wf() && e.depth + 1 < MAX_DEPTH
  {
    e.depth >= e.options.minDepth && e.matchCount[e.depth + 1] >= e.options.threshold
  }

  function Plain(e: Env, c: octet): (r: Env)
    requires e.Wf() && !e.inQuotes && c != '}'
    requires c == '{' ==> e.depth + 1 < MAX_DEPTH
    requires !Structural(c) && !Blank(c) && e.colon ==> e.writeIdx + 1 < |e.value|
    ensures r.Wf()
  {
    if c == '[' then e.(arrayDepth := Inc32(e.arrayDepth))
    else if c == ']' then e.(arrayDepth := Dec32(e.arrayDepth))
    else if c == ',' then MatchPairs(e).(colon := false, writeIdx := 0)
    else if c == '"' then e.(inQuotes := true, writeIdx := 0)
    else if c == ':' then e.(colon := true, writeIdx := 0)
    else if c == '{' then Opened(e)
    else if !Blank(c) && e.colon
    then e.(value := e.value[e.writeIdx := c][e.writeIdx + 1 := NUL], writeIdx := e.writeIdx + 1)
    else e
  }

  /** One round of the loop of jsr_read. */
  function Feed(e: Env, c: octet): (r: Env)
    requires e.Wf() && Safe(e, c)
    ensures r.Wf()
  {
    var f := Filter(e, c);
    if !f.Listening() then f
    else if f.inQuotes then Quoted(f, c)
    else if c == '}' then Closed(f)
    else Plain(f, c)
  }

  /** The round ends with JSR_RET_END_OBJECT. */
  predicate Ends(e: Env, c: octet)
    requires e.Wf() && Safe(e, c)
  {
    var f := Filter(e, c);
    f.Listening() && !f.inQuotes && c == '}' && Reports(Closed(f))
  }

  // ---------- A stream ----------

  predicate SafeAll(e: Env, s: text)
    requires e.Wf()
    decreases |s|
  {
    s == [] || (Safe(e, s[0]) && SafeAll(Feed(e, s[0]), s[1..]))
  }

  /** The state at the end, and what the pairs held at each end-of-object report. */
  datatype Outcome = Outcome(env: Env, events: seq<seq<Pair>>)

  function Fold(e: Env, s: text): (r: Outcome)
    requires e.Wf() && SafeAll(e, s)
    ensures r.env.Wf()
    decreases |s|
  {
    if s == [] then Outcome(e, [])
    else
      var e' := Feed(e, s[0]);
      var rest := Fold(e', s[1..]);
      Outcome(rest.env, (if Ends(e, s[0]) then [e'.pairs] else []) + rest.events)
  }

  /** Reading a joined stream is reading one part and then the other. */
  lemma {:induction false} FoldConcat(e: Env, a: text, b: text)
    requires e.Wf()
    ensures SafeAll(e, a + b) <==> SafeAll(e, a) && SafeAll(Fold(e, a).env, b)
    ensures SafeAll(e, a + b) ==>
              Fold(e, a + b) == Outcome(Fold(Fold(e, a).env, b).env, Fold(e, a).events + Fold(Fold(e, a).env, b).events)
    decreases |a|
  {
    hide Feed, Safe, Ends;
    if a == [] {
      assert a + b == b;
    } else {
      assert (a + b)[1..] == a[1..] + b;
      if Safe(e, a[0]) {
        FoldConcat(Feed(e, a[0]), a[1..], b);
      }
    }
  }

  // ---------- jsr_read and the loop around it ----------

  /** What one call of jsr_read does: it stops after the first report, having read `used`
      characters of what was left of the chunk, or reads the chunk to its end. */
  datatype Call = Call(env: Env, used: nat, ended: bool)

  function ReadCall(e: Env, s: text): (r: Call)
    requires e.Wf() && SafeAll(e, s)
    ensures r.env.Wf() && r.used <= |s| && (r.ended ==> r.used > 0) && (!r.ended ==> r.used == |s|)
    ensures SafeAll(r.env, s[r.used..])
    decreases |s|
  {
    if s == [] then Call(e, 0, false)
    else if Ends(e, s[0]) then Call(Feed(e, s[0]), 1, true)
    else
      var r := ReadCall(Feed(e, s[0]), s[1..]);
      assert s[1..][r.used..] == s[1 + r.used..];
      Call(r.env, 1 + r.used, r.ended)
  }

  /** The callers' loop: call jsr_read on the chunk for as long as it reports. */
  function Drive(e: Env, s: text): (r: Outcome)
    requires e.Wf() && SafeAll(e, s)
    ensures r.env.Wf()
    decreases |s|
  {
    var c := ReadCall(e, s);
    if !c.ended then Outcome(c.env, [])
    else
      var rest := Drive(c.env, s[c.used..]);
      Outcome(rest.env, [c.env.pairs] + rest.events)
  }

  function Join(chunks: seq<text>): text {
    if chunks == [] then [] else chunks[0] + Join(chunks[1..])
  }

  function DriveAll(e: Env, chunks: seq<text>): (r: Outcome)
    requires e.Wf() && SafeAll(e, Join(chunks))
    ensures r.env.Wf()
    decreases |chunks|
  {
    if chunks == [] then Outcome(e, [])
    else
      FoldConcat(e, chunks[0], Join(chunks[1..]));
      DriveIsFold(e, chunks[0]);
      var first := Drive(e, chunks[0]);
      var rest := DriveAll(first.env, chunks[1..]);
      Outcome(rest.env, first.events + rest.events)
  }

  lemma {:induction false} ReadCallIsFold(e: Env, s: text)
    requires e.Wf() && SafeAll(e, s)
    ensures var c := ReadCall(e, s);
            Fold(e, s) == if c.ended
                          then Outcome(Fold(c.env, s[c.used..]).env, [c.env.pairs] + Fold(c.env, s[c.used..]).events)
                          else Outcome(c.env, [])
    decreases |s|
  {
    hide Feed, Safe, Ends;
    if s != [] {
      if Ends(e, s[0]) {
        assert s[1..] == s[ReadCall(e, s).used..];
      } else {
        ReadCallIsFold(Feed(e, s[0]), s[1..]);
        var r := ReadCall(Feed(e, s[0]), s[1..]);
        assert s[1..][r.used..] == s[1 + r.used..];
      }
    }
  }

  lemma {:induction false} DriveIsFold(e: Env, s: text)
    requires e.Wf() && SafeAll(e, s)
    ensures Drive(e, s) == Fold(e, s)
    decreases |s|
  {
    ReadCallIsFold(e, s);
    var c := ReadCall(e, s);
    if c.ended {
      DriveIsFold(c.env, s[c.used..]);
    }
  }

  /** However a stream is cut into chunks, the callers' loops see the reports of the whole stream
      and leave the same state. */
  lemma {:induction false} DriveAllIsFold(e: Env, chunks: seq<text>)
    requires e.Wf() && SafeAll(e, Join(chunks))
    ensures DriveAll(e, chunks) == Fold(e, Join(chunks))
    decreases |chunks|
  {
    hide Feed, Safe, Ends, Drive;
    if chunks != [] {
      FoldConcat(e, chunks[0], Join(chunks[1..]));
      DriveIsFold(e, chunks[0]);
      DriveAllIsFold(Drive(e, chunks[0]).env, chunks[1..]);
    }
  }

  lemma ChunkInvariance(e: Env, chunks: seq<text>, chunks': seq<text>)
    requires e.Wf() && Join(chunks) == Join(chunks') && SafeAll(e, Join(chunks))
    ensures DriveAll(e, chunks) == DriveAll(e, chunks')
  {
    DriveAllIsFold(e, chunks);
    DriveAllIsFold(e, chunks');
  }
}
