/** JSON documents as trees, their printed form, and what the reader is to make of them, told
    without buffers, quotes or indexes; then the proof that jsr.c makes just that of the text. */
module JsrDocument {
  import opened Jsr

  // ---------- Documents ----------

  datatype Value = Quote(s: text) | Bare(s: text) | Sub(o: Object) | Items(os: Objects)
  datatype Object = Object(members: Members)
  datatype Members = NoMembers | Member(key: text, value: Value, rest: Members)
  datatype Objects = NoObjects | MoreObjects(o: Object, rest: Objects)

  function PrintObject(o: Object): text {
    ['{'] + PrintMembers(o.members) + ['}']
  }

  function PrintMembers(ms: Members): text {
    match ms
    case NoMembers => []
    case Member(k, v, NoMembers) => PrintMember(k, v)
    case Member(k, v, rest) => PrintMember(k, v) + [','] + PrintMembers(rest)
  }

  function PrintMember(k: text, v: Value): text
    decreases v, 1
  {
    ['"'] + k + ['"'] + [':'] + PrintValue(v)
  }

  function PrintValue(v: Value): text
    decreases v, 0
  {
    match v
    case Quote(s) => ['"'] + s + ['"']
    case Bare(s) => s
    case Sub(o) => PrintObject(o)
    case Items(os) => ['['] + PrintObjects(os) + [']']
  }

  function PrintObjects(os: Objects): text {
    match os
    case NoObjects => []
    case MoreObjects(o, NoObjects) => PrintObject(o)
    case MoreObjects(o, rest) => PrintObject(o) + [','] + PrintObjects(rest)
  }

  /** Text that can stand between quotes: no quote, and no NUL for a C string to end at. */
  predicate Quotable(s: text) {
    forall c :: c in s ==> c != '"' && c != NUL
  }

  /** An unquoted value: nothing the reader gives another meaning to. */
  predicate Token(s: text) {
    forall c :: c in s ==> !Structural(c) && !Blank(c) && c != NUL
  }

  /** The document keeps to the reader's dialect: keys are not empty, unquoted values fit a value buffer
      of the given size, and nothing is nested below depth 11. `d` is the depth of the objects at hand. */
  predicate FitObject(o: Object, d: nat, valueSize: nat) {
    d < MAX_DEPTH && FitMembers(o.members, d, valueSize)
  }

  predicate FitMembers(ms: Members, d: nat, valueSize: nat) {
    match ms
    case NoMembers => true
    case Member(k, v, rest) => k != [] && Quotable(k) && FitValue(v, d, valueSize) && FitMembers(rest, d, valueSize)
  }

  predicate FitValue(v: Value, d: nat, valueSize: nat) {
    match v
    case Quote(s) => Quotable(s)
    case Bare(s) => Token(s) && |s| < valueSize
    case Sub(o) => FitObject(o, d + 1, valueSize)
    case Items(os) => FitObjects(os, d + 1, valueSize)
  }

  predicate FitObjects(os: Objects, d: nat, valueSize: nat) {
    match os
    case NoObjects => true
    case MoreObjects(o, rest) => FitObject(o, d, valueSize) && FitObjects(rest, d, valueSize)
  }

  // ---------- Meaning ----------

  /** What a buffer of a given size keeps of a string. */
  function Cut(s: text, size: nat): text {
    if |s| < size then s else if size == 0 then [] else s[..size - 1]
  }

  /** The reader's options and the sizes of its two buffers; and whether an empty object takes the key
      it stands behind for a member of its own, as the reader has it, or is just empty. */
  datatype Setup = Setup(options: Options, keySize: nat, valueSize: nat, takesKey: bool)

  /** The key that still waits when the value behind it begins. */
  function Pending(u: Setup, k: text): text {
    if u.takesKey then k else []
  }

  /** The pairs afterwards, the matches counted for the enclosing object, and the reports made. */
  datatype Meaning = Meaning(pairs: seq<Pair>, count: nat, events: seq<seq<Pair>>)

  function MeanLeaf(u: Setup, ps: seq<Pair>, key: text, value: text, d: nat): (m: Meaning)
    requires d < 256
    ensures m.events == []
  {
    var k, v := Cut(key, u.keySize), Cut(value, u.valueSize);
    if k == [] && v == [] then Meaning(ps, 0, []) else Meaning(TouchAll(ps, k, v, d), CountHits(ps, k, v), [])
  }

  /** An object at depth d, with a key waiting or none: it forgets, reads its members, and is reported
      if its count, as an 8-bit number, reaches the threshold. */
  function MeanObject(u: Setup, ps: seq<Pair>, k: text, o: Object, d: nat): Meaning
    requires FitObject(o, d, u.valueSize)
    decreases o, 1
  {
    var m := MeanContent(u, ForgetAll(ps, d), k, o, d);
    m.(events := m.events + if d - 1 >= u.options.minDepth && m.count % 256 >= u.options.threshold then [m.pairs] else [])
  }

  /** Without members, the waiting key is all there is to match. */
  function MeanContent(u: Setup, ps: seq<Pair>, k: text, o: Object, d: nat): Meaning
    requires FitObject(o, d, u.valueSize)
    decreases o, 0
  {
    if o.members == NoMembers then MeanLeaf(u, ps, k, [], d) else MeanMembers(u, ps, o.members, d)
  }

  function MeanMembers(u: Setup, ps: seq<Pair>, ms: Members, d: nat): Meaning
    requires d < MAX_DEPTH && FitMembers(ms, d, u.valueSize)
    decreases ms
  {
    match ms
    case NoMembers => Meaning(ps, 0, [])
    case Member(k, v, rest) =>
      var a := MeanMember(u, ps, k, v, d);
      var b := MeanMembers(u, a.pairs, rest, d);
      Meaning(b.pairs, a.count + b.count, a.events + b.events)
  }

  /** The matches of inner objects count for the outer one only if the option says so. An array
      without objects reads like an empty value. */
  function MeanMember(u: Setup, ps: seq<Pair>, k: text, v: Value, d: nat): Meaning
    requires d < MAX_DEPTH && FitValue(v, d, u.valueSize)
    decreases v
  {
    match v
    case Quote(s) => MeanLeaf(u, ps, k, s, d)
    case Bare(s) => MeanLeaf(u, ps, k, s, d)
    case Sub(o) => Passed(u, MeanObject(u, ps, Pending(u, k), o, d + 1))
    case Items(NoObjects) => MeanLeaf(u, ps, k, [], d)
    case Items(os) => Passed(u, MeanObjects(u, ps, Pending(u, k), os, d + 1))
  }

  /** The waiting key, if any, waits for the first of the objects only. */
  function MeanObjects(u: Setup, ps: seq<Pair>, k: text, os: Objects, d: nat): Meaning
    requires FitObjects(os, d, u.valueSize)
    decreases os
  {
    match os
    case NoObjects => Meaning(ps, 0, [])
    case MoreObjects(o, rest) =>
      var a := MeanObject(u, ps, k, o, d);
      var b := MeanObjects(u, a.pairs, [], rest, d);
      Meaning(b.pairs, a.count + b.count, a.events + b.events)
  }

  function Passed(u: Setup, m: Meaning): Meaning {
    if u.options.recurse then m else m.(count := 0)
  }

  // ---------- Chaining ----------

  /** The text takes the reader safely from one state to another, with these reports. */
  ghost predicate Leads(e: Env, s: text, r: Outcome) {
    e.Wf() && SafeAll(e, s) && Fold(e, s) == r
  }

  lemma Chain(e: Env, a: text, r: Outcome, b: text, t: Outcome)
    requires Leads(e, a, r) && Leads(r.env, b, t)
    ensures Leads(e, a + b, Outcome(t.env, r.events + t.events))
  {
    hide Env.Wf;
    FoldConcat(e, a, b);
  }

  lemma ChainQuiet(e: Env, a: text, r: Env, b: text, t: Env)
    requires Leads(e, a, Outcome(r, [])) && Leads(r, b, Outcome(t, []))
    ensures Leads(e, a + b, Outcome(t, []))
  {
    hide Leads;
    Chain(e, a, Outcome(r, []), b, Outcome(t, []));
    var none: seq<seq<Pair>> := [];
    assert none + none == none;
  }

  lemma One(e: Env, c: octet)
    requires e.Wf() && Safe(e, c)
    ensures Leads(e, [c], Outcome(Feed(e, c), if Ends(e, c) then [Feed(e, c).pairs] else []))
  {
    hide Feed, Ends, Safe;
    assert [c][1..] == [];
    assert Fold(Feed(e, c), []) == Outcome(Feed(e, c), []);
  }

  /** What reading the text of one string leaves alone. */
  predicate Same(e: Env, r: Env) {
    && r.Wf() && r.Listening() && r.options == e.options && r.pairs == e.pairs
    && r.depth == e.depth && r.matchCount == e.matchCount && |r.key| == |e.key| && |r.value| == |e.value|
  }

  // ---------- Strings ----------

  /** A filled buffer: its string is what was written. */
  predicate Filled(buffer: text, n: nat) {
    n < |buffer| && CString(buffer) == buffer[..n]
  }

  lemma CStringIs(buffer: text, s: text)
    requires |s| < |buffer| && buffer[..|s|] == s && buffer[|s|] == NUL && NUL !in s
    ensures CString(buffer) == s
  {
    assert forall i :: 0 <= i < |s| ==> buffer[i] == s[i] && s[i] in s;
  }

  lemma Write(buffer: text, n: nat, c: octet)
    requires n + 1 < |buffer| && c != NUL && (n > 0 ==> Filled(buffer, n))
    ensures var b := buffer[n := c][n + 1 := NUL];
            Filled(b, n + 1) && CString(b) == buffer[..n] + [c]
  {
    var b := buffer[n := c][n + 1 := NUL];
    var s := buffer[..n] + [c];
    assert NUL !in buffer[..n];
    CStringIs(b, s);
  }

  /** The buffer a character in quotes goes to. */
  function Target(e: Env): text {
    if e.colon then e.value else e.key
  }

  function Other(e: Env): text {
    if e.colon then e.key else e.value
  }

  lemma QuotedOne(e: Env, c: octet)
    requires e.Wf() && e.Listening() && e.inQuotes && c != '"' && c != NUL
    requires e.writeIdx > 0 ==> Filled(Target(e), e.writeIdx)
    ensures Safe(e, c) && !Ends(e, c)
    ensures var r, room := Feed(e, c), e.writeIdx + 1 < |Target(e)|;
            && Same(e, r) && r.inQuotes && r.colon == e.colon && Other(r) == Other(e)
            && r.writeIdx == (if room then e.writeIdx + 1 else e.writeIdx)
            && (room ==> Filled(Target(r), r.writeIdx) && CString(Target(r)) == Target(e)[..e.writeIdx] + [c])
            && (!room ==> Target(r) == Target(e)) && |Target(r)| == |Target(e)|
  {
    hide CString;
    if e.writeIdx + 1 < |Target(e)| {
      Write(Target(e), e.writeIdx, c);
    }
  }

  lemma CutFull(w: text, s: text, size: nat)
    ensures |w| + 1 == size ==> Cut(w + s, size) == w
  {}

  lemma SameSelf(e: Env)
    requires e.Wf() && e.Listening()
    ensures Same(e, e)
  {}

  lemma SameThen(e: Env, e': Env, r: Env)
    requires Same(e, e') && Same(e', r)
    ensures Same(e, r)
  {
    hide Env.Wf;
  }

  lemma SameIsReady(e: Env, r: Env)
    requires Same(e, r)
    ensures r.Wf() && r.Listening()
  {}

  /** The rest of a quoted string, from within the quotes: what fits is added to the buffer. */
  lemma {:induction false} QuotedRest(e: Env, s: text) returns (r: Env)
    requires e.Wf() && e.Listening() && e.inQuotes && Quotable(s) && Filled(Target(e), e.writeIdx)
    ensures Leads(e, s, Outcome(r, [])) && Same(e, r) && r.inQuotes && r.colon == e.colon && Other(r) == Other(e)
    ensures CString(Target(r)) == Cut(CString(Target(e)) + s, |Target(e)|)
    decreases |s|
  {
    hide Env.Wf, Feed, Ends, Safe, CString, Same, Target, Other, Env.Listening;
    var w := CString(Target(e));
    if s == [] {
      r := e;
      SameSelf(e);
      assert w + s == w;
    } else {
      var c := s[0];
      assert c in s && forall x :: x in s[1..] ==> x in s;
      QuotedOne(e, c);
      var e' := Feed(e, c);
      SameIsReady(e, e');
      r := QuotedRest(e', s[1..]);
      One(e, c);
      ChainQuiet(e, [c], e', s[1..], r);
      assert [c] + s[1..] == s;
      SameThen(e, e', r);
      assert w + s == (w + [c]) + s[1..];
      CutFull(w, s, |Target(e)|);
      CutFull(w, s[1..], |Target(e)|);
    }
  }

  /** A whole quoted string. An empty one writes nothing and would leave what stood in its buffer. */
  lemma QuotedString(e: Env, s: text) returns (r: Env)
    requires e.Wf() && e.Listening() && !e.inQuotes && Quotable(s)
    requires CString(Target(e)) == [] || (s != [] && |Target(e)| >= 2)
    ensures Leads(e, ['"'] + s + ['"'], Outcome(r, [])) && Same(e, r) && !r.inQuotes
    ensures r.colon == e.colon && Other(r) == Other(e) && CString(Target(r)) == Cut(s, |Target(e)|)
  {
    hide CString, Cut, SafeAll, Fold;
    var e1 := Feed(e, '"');
    One(e, '"');
    assert Same(e, e1) && e1.inQuotes && e1.writeIdx == 0 && Target(e1) == Target(e) && e1.colon == e.colon;
    var r1 := QuotedFromStart(e1, s);
    ChainQuiet(e, ['"'], e1, s, r1);
    r := Feed(r1, '"');
    One(r1, '"');
    ChainQuiet(e, ['"'] + s, r1, ['"'], r);
  }

  lemma QuotedFromStart(e: Env, s: text) returns (r: Env)
    requires e.Wf() && e.Listening() && e.inQuotes && Quotable(s) && e.writeIdx == 0 && |Target(e)| >= 1
    requires CString(Target(e)) == [] || (s != [] && |Target(e)| >= 2)
    ensures Leads(e, s, Outcome(r, [])) && Same(e, r) && r.inQuotes
    ensures r.colon == e.colon && Other(r) == Other(e) && CString(Target(r)) == Cut(s, |Target(e)|)
  {
    hide Env.Wf, Feed, Ends, Safe, CString, Same, Env.Listening, Fold, SafeAll;
    if CString(Target(e)) == [] {
      r := QuotedRest(e, s);
      assert [] + s == s;
    } else {
      var c := s[0];
      assert c in s && forall x :: x in s[1..] ==> x in s;
      QuotedOne(e, c);
      var e' := Feed(e, c);
      SameIsReady(e, e');
      One(e, c);
      r := QuotedRest(e', s[1..]);
      SameThen(e, e', r);
      ChainQuiet(e, [c], e', s[1..], r);
      assert [c] + s[1..] == s;
      assert Target(e)[..0] + [c] == [c];
    }
  }

  /** An unquoted value, as long as the buffer holds it. */
  lemma {:induction false} BareString(e: Env, s: text) returns (r: Env)
    requires e.Wf() && e.Listening() && !e.inQuotes && e.colon && Token(s)
    requires Filled(e.value, e.writeIdx) && e.writeIdx + |s| < |e.value|
    ensures Leads(e, s, Outcome(r, [])) && Same(e, r) && !r.inQuotes && r.colon && r.key == e.key
    ensures CString(r.value) == CString(e.value) + s
    decreases |s|
  {
    hide SafeAll, Fold, CString;
    if s == [] {
      r := e;
      assert Leads(e, s, Outcome(r, [])) by { EmptyText(e); }
      assert CString(e.value) + s == CString(e.value);
    } else {
      var c := s[0];
      assert c in s && forall x :: x in s[1..] ==> x in s;
      Write(e.value, e.writeIdx, c);
      var e' := Feed(e, c);
      One(e, c);
      r := BareString(e', s[1..]);
      ChainQuiet(e, [c], e', s[1..], r);
      assert [c] + s[1..] == s;
      assert CString(e.value) + s == (CString(e.value) + [c]) + s[1..];
    }
  }

  lemma EmptyText(e: Env)
    requires e.Wf()
    ensures Leads(e, [], Outcome(e, []))
  {}

  // ---------- Members ----------

  function SetupOf(e: Env): Setup {
    Setup(e.options, |e.key|, |e.value|, true)
  }

  /** Between tokens, at depth d: the pairs are ps, n matches (as an 8-bit number) are counted here,
      and the counts of the enclosing objects are those of `base`. */
  ghost predicate Tracks(e: Env, base: Env, d: nat, ps: seq<Pair>, n: nat) {
    && e.Wf() && e.Listening() && !e.inQuotes && |e.key| >= 2
    && |base.matchCount| == MAX_DEPTH && SetupOf(e) == SetupOf(base)
    && e.depth == d && e.pairs == ps && (d > 0 ==> e.matchCount[d] == n % 256)
    && forall j :: 0 <= j < d && j < MAX_DEPTH ==> e.matchCount[j] == base.matchCount[j]
  }

  /** No string is waiting in the buffers. */
  predicate Empty(e: Env) {
    CString(e.key) == [] && CString(e.value) == []
  }

  /** Where a member may begin. */
  predicate Ready(e: Env) {
    !e.colon && CString(e.value) == []
  }

  /** What the comma or brace after a member will make of the state. */
  ghost predicate Settles(r: Env, base: Env, d: nat, ps: seq<Pair>, n: nat) {
    r.Wf() && r.Listening() && !r.inQuotes && Tracks(MatchPairs(r), base, d, ps, n) && Empty(MatchPairs(r))
  }

  lemma SameTracks(e: Env, r: Env, base: Env, d: nat, ps: seq<Pair>, n: nat)
    requires Tracks(e, base, d, ps, n) && Same(e, r) && !r.inQuotes
    ensures Tracks(r, base, d, ps, n)
  {}

  lemma FirstNul(buffer: text)
    requires buffer != []
    ensures buffer[0] == NUL <==> CString(buffer) == []
    ensures CString(Clear(buffer)) == []
  {}

  lemma LeafSettles(r: Env, base: Env, d: nat, ps: seq<Pair>, n: nat, key: text, value: text)
    requires Tracks(r, base, d, ps, n) && d > 0
    requires CString(r.key) == Cut(key, |r.key|) && CString(r.value) == Cut(value, |r.value|)
    ensures var m := MeanLeaf(SetupOf(base), ps, key, value, d);
            Settles(r, base, d, m.pairs, n + m.count)
  {
    hide CString, Cut, Clear;
    FirstNul(r.key);
    FirstNul(r.value);
  }

  lemma EmptySettles(r: Env, base: Env, d: nat, ps: seq<Pair>, n: nat)
    requires Tracks(r, base, d, ps, n) && Empty(r)
    ensures Settles(r, base, d, ps, n)
  {
    FirstNul(r.key);
    FirstNul(r.value);
  }

  /** The key of a member, up to its colon. */
  lemma Head(e: Env, base: Env, d: nat, ps: seq<Pair>, n: nat, k: text) returns (r: Env)
    requires Tracks(e, base, d, ps, n) && Ready(e) && k != [] && Quotable(k)
    ensures Leads(e, ['"'] + k + ['"'] + [':'], Outcome(r, []))
    ensures Tracks(r, base, d, ps, n) && r.colon && r.writeIdx == 0
    ensures CString(r.key) == Cut(k, |e.key|) && CString(r.value) == []
  {
    hide CString, Cut, SafeAll, Fold;
    var r1 := QuotedString(e, k);
    One(r1, ':');
    r := Feed(r1, ':');
    ChainQuiet(e, ['"'] + k + ['"'], r1, [':'], r);
    SameTracks(e, r, base, d, ps, n);
  }

  /** A square bracket only moves the array depth. */
  lemma Bracket(e: Env, c: octet, base: Env, d: nat, ps: seq<Pair>, n: nat) returns (r: Env)
    requires Tracks(e, base, d, ps, n) && (c == '[' || c == ']')
    ensures Leads(e, [c], Outcome(r, [])) && Tracks(r, base, d, ps, n) && r.key == e.key && r.value == e.value
  {
    hide CString, SafeAll, Fold;
    r := Feed(e, c);
    One(e, c);
  }

  /** The string a value without objects stands for. */
  function Content(v: Value): text {
    if v.Quote? || v.Bare? then v.s else []
  }

  lemma LeafValue(h: Env, base: Env, d: nat, ps: seq<Pair>, n: nat, v: Value) returns (r: Env)
    requires Tracks(h, base, d, ps, n) && h.colon && h.writeIdx == 0 && CString(h.value) == []
    requires FitValue(v, d, |h.value|) && (v.Quote? || v.Bare? || v == Items(NoObjects))
    ensures Leads(h, PrintValue(v), Outcome(r, [])) && Tracks(r, base, d, ps, n)
    ensures r.key == h.key && CString(r.value) == Cut(Content(v), |h.value|)
  {
    hide CString, SafeAll, Fold, Leads, Structural, Blank, Quoted;
    if v.Quote? {
      r := QuotedString(h, v.s);
      SameTracks(h, r, base, d, ps, n);
    } else if v.Bare? {
      r := BareString(h, v.s);
      SameTracks(h, r, base, d, ps, n);
      assert [] + v.s == v.s;
    } else {
      var h1 := Bracket(h, '[', base, d, ps, n);
      r := Bracket(h1, ']', base, d, ps, n);
      ChainQuiet(h, ['['], h1, [']'], r);
      assert PrintValue(v) == ['['] + [']'];
    }
  }

  lemma MemberLeaf(e: Env, base: Env, d: nat, ps: seq<Pair>, n: nat, k: text, v: Value) returns (r: Env)
    requires Tracks(e, base, d, ps, n) && Ready(e) && d > 0
    requires k != [] && Quotable(k) && FitValue(v, d, |e.value|) && (v.Quote? || v.Bare? || v == Items(NoObjects))
    ensures var m := MeanMember(SetupOf(base), ps, k, v, d);
            Leads(e, PrintMember(k, v), Outcome(r, m.events)) && Settles(r, base, d, m.pairs, n + m.count)
  {
    hide CString, Cut, SafeAll, Fold, MeanLeaf, Settles, Leads;
    var h := Head(e, base, d, ps, n, k);
    r := LeafValue(h, base, d, ps, n, v);
    ChainQuiet(e, ['"'] + k + ['"'] + [':'], h, PrintValue(v), r);
    LeafSettles(r, base, d, ps, n, k, Content(v));
  }

  // ---------- Objects ----------

  /** '{': a new object one deeper, with nothing counted. */
  lemma OpenBrace(e: Env, base: Env, d: nat, ps: seq<Pair>, n: nat) returns (r: Env)
    requires Tracks(e, base, d, ps, n) && d + 1 < MAX_DEPTH && CString(e.value) == []
    ensures Leads(e, ['{'], Outcome(r, [])) && Ready(r)
    ensures Tracks(r, r, d + 1, ForgetAll(ps, d + 1), 0) && SetupOf(r) == SetupOf(base)
    ensures forall j :: 0 <= j <= d ==> r.matchCount[j] == e.matchCount[j]
    ensures r.key == e.key && r.value == e.value
  {
    hide CString, SafeAll, Fold, ForgetAll;
    r := Feed(e, '{');
    One(e, '{');
  }

  /** '}': the object is done; whether it is reported depends on the count of its own depth. */
  lemma CloseBrace(e: Env, inner: Env, d: nat, ps: seq<Pair>, n: nat) returns (r: Env)
    requires Settles(e, inner, d, ps, n) && d > 0
    ensures var u := SetupOf(inner);
            && Leads(e, ['}'], Outcome(r, if d - 1 >= u.options.minDepth && n % 256 >= u.options.threshold then [ps] else []))
            && Empty(r) && r.Wf() && r.Listening() && !r.inQuotes && r.depth == d - 1 && r.pairs == ps && SetupOf(r) == u
            && (forall j :: 0 <= j < d - 1 ==> r.matchCount[j] == inner.matchCount[j])
            && r.matchCount[d - 1] == Add8(inner.matchCount[d - 1], if u.options.recurse then n % 256 else 0)
  {
    hide CString, SafeAll, Fold, MatchPairs;
    r := Feed(e, '}');
    var f := Filter(e, '}');
    FilterSettles(e, '}', inner, d, ps, n);
    One(e, '}');
  }

  /** The header filter, once the body has begun, changes nothing a match looks at. */
  lemma FilterSettles(e: Env, c: octet, base: Env, d: nat, ps: seq<Pair>, n: nat)
    requires Settles(e, base, d, ps, n)
    ensures Settles(Filter(e, c), base, d, ps, n)
  {
    hide CString, Clear;
  }

  /** The brackets of an object around its content. */
  lemma Braced(e: Env, inner: Env, base: Env, s: Env, o: Object, d: nat, ps: seq<Pair>, n: nat, m: Meaning) returns (r: Env)
    requires d > 0 && Tracks(e, base, d - 1, ps, n) && SetupOf(inner) == SetupOf(base)
    requires Leads(e, ['{'], Outcome(inner, [])) && Leads(inner, PrintMembers(o.members), Outcome(s, m.events))
    requires Settles(s, inner, d, m.pairs, 0 + m.count) && d < MAX_DEPTH
    requires |inner.matchCount| == |e.matchCount| == MAX_DEPTH && forall j :: 0 <= j <= d - 1 ==> inner.matchCount[j] == e.matchCount[j]
    ensures var u := SetupOf(base);
            var close := if d - 1 >= u.options.minDepth && m.count % 256 >= u.options.threshold then [m.pairs] else [];
            && Leads(e, PrintObject(o), Outcome(r, m.events + close)) && Empty(r)
            && Tracks(r, base, d - 1, m.pairs, n + Passed(u, m).count)
  {
    hide CString, SafeAll, Fold, Leads, Settles, Env.Wf, Env.Listening;
    var u := SetupOf(base);
    r := CloseBrace(s, inner, d, m.pairs, 0 + m.count);
    var close := if d - 1 >= u.options.minDepth && m.count % 256 >= u.options.threshold then [m.pairs] else [];
    Chain(e, ['{'], Outcome(inner, []), PrintMembers(o.members), Outcome(s, m.events));
    Chain(e, ['{'] + PrintMembers(o.members), Outcome(s, [] + m.events), ['}'], Outcome(r, close));
    assert [] + m.events + close == m.events + close;
  }

  lemma ObjectRead(e: Env, base: Env, k: text, o: Object, d: nat, ps: seq<Pair>, n: nat) returns (r: Env)
    requires d > 0 && FitObject(o, d, |e.value|) && Tracks(e, base, d - 1, ps, n) && CString(e.value) == []
    requires CString(e.key) == Cut(k, |e.key|)
    ensures var u := SetupOf(base); var m := MeanObject(u, ps, k, o, d);
            && Leads(e, PrintObject(o), Outcome(r, m.events)) && Empty(r)
            && Tracks(r, base, d - 1, m.pairs, n + Passed(u, m).count)
    decreases o, 1
  {
    hide CString, Cut, SafeAll, Fold, ForgetAll, Leads, Settles, MeanContent, FitMembers, PrintObject;
    var inner := OpenBrace(e, base, d - 1, ps, n);
    var s := ContentRead(inner, k, o, d, ForgetAll(ps, d));
    r := Braced(e, inner, base, s, o, d, ps, n, MeanContent(SetupOf(base), ForgetAll(ps, d), k, o, d));
  }

  /** What stands between the braces. */
  lemma ContentRead(inner: Env, k: text, o: Object, d: nat, ps: seq<Pair>) returns (s: Env)
    requires d > 0 && FitObject(o, d, |inner.value|) && Tracks(inner, inner, d, ps, 0) && Ready(inner)
    requires CString(inner.key) == Cut(k, |inner.key|)
    ensures var m := MeanContent(SetupOf(inner), ps, k, o, d);
            Leads(inner, PrintMembers(o.members), Outcome(s, m.events)) && Settles(s, inner, d, m.pairs, 0 + m.count)
    decreases o, 0
  {
    hide CString, Cut, SafeAll, Fold, Leads, Settles, MeanMembers, MeanLeaf;
    if o.members == NoMembers {
      s := inner;
      EmptyCut(|inner.value|);
      LeafSettles(inner, inner, d, ps, 0, k, []);
      EmptyText(inner);
    } else {
      s := MembersRead(inner, inner, o.members, d, ps, 0);
    }
  }

  lemma EmptyCut(size: nat)
    ensures Cut([], size) == []
  {}

  lemma MembersRead(e: Env, base: Env, ms: Members, d: nat, ps: seq<Pair>, n: nat) returns (r: Env)
    requires 0 < d < MAX_DEPTH && ms.Member? && FitMembers(ms, d, |e.value|) && Tracks(e, base, d, ps, n) && Ready(e)
    ensures var m := MeanMembers(SetupOf(base), ps, ms, d);
            Leads(e, PrintMembers(ms), Outcome(r, m.events)) && Settles(r, base, d, m.pairs, n + m.count)
    decreases ms
  {
    hide CString, SafeAll, Fold, Leads, Settles, MeanMember;
    var u := SetupOf(base);
    var a := MeanMember(u, ps, ms.key, ms.value, d);
    var s := MemberRead(e, base, ms.key, ms.value, d, ps, n);
    if ms.rest == NoMembers {
      r := s;
      assert a.events + [] == a.events;
    } else {
      var t := Comma(s, base, d, a.pairs, n + a.count);
      r := MembersRead(t, base, ms.rest, d, a.pairs, n + a.count);
      var b := MeanMembers(u, a.pairs, ms.rest, d);
      Chain(e, PrintMember(ms.key, ms.value), Outcome(s, a.events), [','], Outcome(t, []));
      Chain(e, PrintMember(ms.key, ms.value) + [','], Outcome(t, a.events + []), PrintMembers(ms.rest), Outcome(r, b.events));
      assert a.events + [] == a.events;
    }
  }

  lemma Comma(e: Env, base: Env, d: nat, ps: seq<Pair>, n: nat) returns (r: Env)
    requires Settles(e, base, d, ps, n)
    ensures Leads(e, [','], Outcome(r, [])) && Tracks(r, base, d, ps, n) && Ready(r) && Empty(r)
  {
    hide CString, SafeAll, Fold, MatchPairs;
    r := Feed(e, ',');
    FilterSettles(e, ',', base, d, ps, n);
    One(e, ',');
  }

  lemma MemberRead(e: Env, base: Env, k: text, v: Value, d: nat, ps: seq<Pair>, n: nat) returns (r: Env)
    requires 0 < d < MAX_DEPTH && k != [] && Quotable(k) && FitValue(v, d, |e.value|)
    requires Tracks(e, base, d, ps, n) && Ready(e)
    ensures var m := MeanMember(SetupOf(base), ps, k, v, d);
            Leads(e, PrintMember(k, v), Outcome(r, m.events)) && Settles(r, base, d, m.pairs, n + m.count)
    decreases v
  {
    hide CString, SafeAll, Fold, Leads, Settles, MeanObject, MeanObjects;
    var u := SetupOf(base);
    if v.Sub? {
      var h := Head(e, base, d, ps, n, k);
      var m := MeanObject(u, ps, k, v.o, d + 1);
      r := ObjectRead(h, base, k, v.o, d + 1, ps, n);
      Chain(e, ['"'] + k + ['"'] + [':'], Outcome(h, []), PrintObject(v.o), Outcome(r, m.events));
      EmptySettles(r, base, d, m.pairs, n + Passed(u, m).count);
      assert [] + m.events == m.events;
    } else if v.Items? && v.os.MoreObjects? {
      var h := Head(e, base, d, ps, n, k);
      var m := MeanObjects(u, ps, k, v.os, d + 1);
      var b := Bracket(h, '[', base, d, ps, n);
      var t := ObjectsRead(b, base, k, v.os, d + 1, ps, n);
      r := Bracket(t, ']', base, d, m.pairs, n + Passed(u, m).count);
      Chain(h, ['['], Outcome(b, []), PrintObjects(v.os), Outcome(t, m.events));
      Chain(h, ['['] + PrintObjects(v.os), Outcome(t, [] + m.events), [']'], Outcome(r, []));
      Chain(e, ['"'] + k + ['"'] + [':'], Outcome(h, []), PrintValue(v), Outcome(r, [] + m.events + []));
      EmptySettles(r, base, d, m.pairs, n + Passed(u, m).count);
      assert [] + ([] + m.events + []) == m.events;
    } else {
      r := MemberLeaf(e, base, d, ps, n, k, v);
    }
  }

  lemma ObjectsRead(e: Env, base: Env, k: text, os: Objects, d: nat, ps: seq<Pair>, n: nat) returns (r: Env)
    requires d > 0 && os.MoreObjects? && FitObjects(os, d, |e.value|)
    requires Tracks(e, base, d - 1, ps, n) && CString(e.value) == [] && CString(e.key) == Cut(k, |e.key|)
    ensures var u := SetupOf(base); var m := MeanObjects(u, ps, k, os, d);
            && Leads(e, PrintObjects(os), Outcome(r, m.events)) && Empty(r)
            && Tracks(r, base, d - 1, m.pairs, n + Passed(u, m).count)
    decreases os
  {
    hide CString, Cut, SafeAll, Fold, Leads, MeanObject;
    var u := SetupOf(base);
    var a := MeanObject(u, ps, k, os.o, d);
    var s := ObjectRead(e, base, k, os.o, d, ps, n);
    if os.rest == NoObjects {
      r := s;
      assert a.events + [] == a.events;
    } else {
      var n1 := n + Passed(u, a).count;
      EmptySettles(s, base, d - 1, a.pairs, n1);
      var t := Comma(s, base, d - 1, a.pairs, n1);
      EmptyCut(|t.key|);
      r := ObjectsRead(t, base, [], os.rest, d, a.pairs, n1);
      var b := MeanObjects(u, a.pairs, [], os.rest, d);
      Chain(e, PrintObject(os.o), Outcome(s, a.events), [','], Outcome(t, []));
      Chain(e, PrintObject(os.o) + [','], Outcome(t, a.events + []), PrintObjects(os.rest), Outcome(r, b.events));
      assert a.events + [] == a.events;
    }
  }
}
