/** What the streaming reader promises about documents: the reports of a printed document, whatever
    blanks stand between its tokens and however it arrives; what is counted; what is captured; and
    where an HTTP header ends. */
module JsrTheorems {
  import opened Jsr
  import opened JsrDocument

  // ---------- Blanks between tokens ----------

  /** The text without the blanks that stand outside quotes. */
  function Strip(inQuotes: bool, s: text): text
    decreases |s|
  {
    if s == [] then []
    else if s[0] == '"' then [s[0]] + Strip(!inQuotes, s[1..])
    else if !inQuotes && Blank(s[0]) then Strip(inQuotes, s[1..])
    else [s[0]] + Strip(inQuotes, s[1..])
  }

  /** Two states that differ at most in the header filter's memory. */
  predicate Alike(e: Env, f: Env) {
    e.Wf() && f.Wf() && e.Listening() && f.Listening() && e.(fifo4 := 0) == f.(fifo4 := 0)
  }

  lemma QuotedForgetsFifo(e: Env, x: uint32, c: octet)
    requires e.Wf() && e.inQuotes
    ensures Quoted(e.(fifo4 := x), c) == Quoted(e, c).(fifo4 := x)
  {}

  lemma MatchForgetsFifo(e: Env, x: uint32)
    requires e.Wf()
    ensures MatchPairs(e.(fifo4 := x)) == MatchPairs(e).(fifo4 := x)
  {
    hide CString, TouchAll, CountHits, NoteErrors, Clear, Count;
  }

  lemma ClosedForgetsFifo(e: Env, x: uint32)
    requires e.Wf() && !e.inQuotes
    ensures Closed(e.(fifo4 := x)) == Closed(e).(fifo4 := x)
    ensures Reports(Closed(e.(fifo4 := x))) == Reports(Closed(e))
  {
    hide MatchPairs, Count;
    MatchForgetsFifo(e, x);
  }

  lemma PlainForgetsFifo(e: Env, x: uint32, c: octet)
    requires e.Wf() && !e.inQuotes && c != '}'
    requires c == '{' ==> e.depth + 1 < MAX_DEPTH
    requires !Structural(c) && !Blank(c) && e.colon ==> e.writeIdx + 1 < |e.value|
    ensures Plain(e.(fifo4 := x), c) == Plain(e, c).(fifo4 := x)
    ensures Plain(e, c).inQuotes <==> c == '"'
  {
    hide MatchPairs, ForgetAll;
    MatchForgetsFifo(e, x);
    MatchKeepsQuotes(e);
  }

  lemma MatchKeepsQuotes(e: Env)
    requires e.Wf()
    ensures MatchPairs(e).inQuotes == e.inQuotes && MatchPairs(e).options == e.options && MatchPairs(e).httpBody == e.httpBody
  {}

  lemma AlikeStep(e: Env, f: Env, c: octet)
    requires Alike(e, f)
    ensures Safe(e, c) <==> Safe(f, c)
    ensures Safe(e, c) ==> Alike(Feed(e, c), Feed(f, c)) && (Ends(e, c) <==> Ends(f, c))
    ensures Safe(e, c) ==> (Feed(e, c).inQuotes <==> if c == '"' then !e.inQuotes else e.inQuotes)
  {
    hide Quoted, Closed, Plain, Reports, Env.Wf;
    var e1, f1 := Filter(e, c), Filter(f, c);
    assert f1 == e1.(fifo4 := f1.fifo4) && e1.Listening() && e1.inQuotes == e.inQuotes;
    assert Safe(e, c) <==> Safe(f, c);
    if Safe(e, c) {
      FeedForgetsFifo(e1, f1.fifo4, c);
    }
  }

  /** The part of a round after the header filter. */
  lemma FeedForgetsFifo(e: Env, x: uint32, c: octet)
    requires e.Wf() && e.Listening()
    requires !e.inQuotes ==> (c == '{' ==> e.depth + 1 < MAX_DEPTH)
                             && (!Structural(c) && !Blank(c) && e.colon ==> e.writeIdx + 1 < |e.value|)
    ensures var f := e.(fifo4 := x);
            if e.inQuotes then
              Quoted(f, c) == Quoted(e, c).(fifo4 := x) && Quoted(e, c).Listening() && (Quoted(e, c).inQuotes <==> c != '"')
            else if c == '}' then
              && Closed(f) == Closed(e).(fifo4 := x) && Reports(Closed(f)) == Reports(Closed(e))
              && Closed(e).Listening() && !Closed(e).inQuotes
            else Plain(f, c) == Plain(e, c).(fifo4 := x) && Plain(e, c).Listening() && (Plain(e, c).inQuotes <==> c == '"')
  {
    hide MatchPairs;
    MatchKeepsQuotes(e);
    if e.inQuotes {
      QuotedForgetsFifo(e, x, c);
    } else if c == '}' {
      ClosedForgetsFifo(e, x);
    } else {
      PlainForgetsFifo(e, x, c);
    }
  }

  lemma BlankStep(e: Env, f: Env, c: octet)
    requires Alike(e, f) && !e.inQuotes && Blank(c)
    ensures Safe(e, c) && !Ends(e, c) && Alike(Feed(e, c), f) && !Feed(e, c).inQuotes
  {}

  /** Reading a text and reading it without its blanks is the same. */
  lemma {:induction false} StripIsRead(e: Env, f: Env, s: text)
    requires Alike(e, f)
    ensures SafeAll(e, s) <==> SafeAll(f, Strip(e.inQuotes, s))
    ensures SafeAll(e, s) ==>
              && Fold(e, s).events == Fold(f, Strip(e.inQuotes, s)).events
              && Alike(Fold(e, s).env, Fold(f, Strip(e.inQuotes, s)).env)
    decreases |s|
  {
    hide Safe, Feed, Ends, Env.Wf, Env.Listening;
    if s != [] {
      var c := s[0];
      if !e.inQuotes && Blank(c) {
        BlankStep(e, f, c);
        StripIsRead(Feed(e, c), f, s[1..]);
      } else {
        AlikeStep(e, f, c);
        var t := Strip(e.inQuotes, s);
        assert t[0] == c;
        if Safe(e, c) {
          StripIsRead(Feed(e, c), Feed(f, c), s[1..]);
          assert t[1..] == Strip(Feed(e, c).inQuotes, s[1..]);
        }
      }
    }
  }

  // ---------- Documents ----------

  /** A reader at the start of a document: set up with buffers that hold nothing yet. */
  predicate Fresh(e: Env) {
    e.Wf() && e.Listening() && !e.inQuotes && e.depth == 0 && |e.key| >= 2 && Empty(e)
  }

  predicate FitDocument(v: Value, valueSize: nat) {
    (v.Sub? || (v.Items? && v.os.MoreObjects?)) && FitValue(v, 0, valueSize)
  }

  function MeanDocument(u: Setup, ps: seq<Pair>, v: Value): Meaning
    requires FitDocument(v, u.valueSize)
  {
    if v.Sub? then MeanObject(u, ps, [], v.o, 1) else MeanObjects(u, ps, [], v.os, 1)
  }

  lemma DocumentRead(e: Env, v: Value) returns (r: Env)
    requires Fresh(e) && FitDocument(v, |e.value|)
    ensures var m := MeanDocument(SetupOf(e), e.pairs, v);
            Leads(e, PrintValue(v), Outcome(r, m.events)) && r.pairs == m.pairs && Fresh(r)
  {
    hide CString, Cut, MeanObject, MeanObjects, Leads, SafeAll, Fold;
    EmptyCut(|e.key|);
    if v.Sub? {
      r := ObjectRead(e, e, [], v.o, 1, e.pairs, 0);
    } else {
      var m := MeanObjects(SetupOf(e), e.pairs, [], v.os, 1);
      var b := Bracket(e, '[', e, 0, e.pairs, 0);
      var t := ObjectsRead(b, e, [], v.os, 1, e.pairs, 0);
      r := Bracket(t, ']', e, 0, m.pairs, Passed(SetupOf(e), m).count);
      Chain(e, ['['], Outcome(b, []), PrintObjects(v.os), Outcome(t, m.events));
      Chain(e, ['['] + PrintObjects(v.os), Outcome(t, [] + m.events), [']'], Outcome(r, []));
      assert [] + m.events + [] == m.events;
    }
  }

  /** A printed document, with blanks anywhere between its tokens and cut into chunks anyhow, makes
      the callers' loops see just the reports its meaning lists. */
  lemma PrintThenRead(e: Env, v: Value, chunks: seq<text>)
    requires Fresh(e) && FitDocument(v, |e.value|) && Strip(false, Join(chunks)) == PrintValue(v)
    ensures SafeAll(e, Join(chunks))
    ensures DriveAll(e, chunks).events == MeanDocument(SetupOf(e), e.pairs, v).events
    ensures DriveAll(e, chunks).env.pairs == MeanDocument(SetupOf(e), e.pairs, v).pairs
  {
    hide CString, Env.Wf, Env.Listening, MeanDocument;
    var r := DocumentRead(e, v);
    FreshAlike(e);
    StripIsRead(e, e, Join(chunks));
    DriveAllIsFold(e, chunks);
  }

  lemma FreshAlike(e: Env)
    requires Fresh(e)
    ensures Alike(e, e)
  {}

  // ---------- What is counted ----------

  datatype Leaf = Leaf(key: text, value: text)

  /** The key and value pairs of an object in the order they are read; those of inner objects too if
      `deep`. An empty object that takes the key before it has that key with an empty value. */
  function ObjectLeaves(u: Setup, deep: bool, k: text, o: Object): seq<Leaf>
    decreases o, 1
  {
    if o.members.Member? then Leaves(u, deep, o.members) else if k == [] then [] else [Leaf(k, [])]
  }

  function Leaves(u: Setup, deep: bool, ms: Members): seq<Leaf>
    decreases ms
  {
    match ms
    case NoMembers => []
    case Member(k, v, rest) => LeavesOf(u, deep, k, v) + Leaves(u, deep, rest)
  }

  function LeavesOf(u: Setup, deep: bool, k: text, v: Value): seq<Leaf>
    decreases v
  {
    match v
    case Sub(o) => if deep then ObjectLeaves(u, deep, Pending(u, k), o) else []
    case Items(MoreObjects(o, rest)) => if deep then LeavesAll(u, Pending(u, k), v.os) else []
    case _ => [Leaf(k, Content(v))]
  }

  function LeavesAll(u: Setup, k: text, os: Objects): seq<Leaf>
    decreases os
  {
    match os
    case NoObjects => []
    case MoreObjects(o, rest) => ObjectLeaves(u, true, k, o) + LeavesAll(u, [], rest)
  }

  /** Which pairs of interest match which leaves: all a pair gives is what was read, cut to its buffer. */
  function Matching(u: Setup, ps: seq<Pair>, leaves: seq<Leaf>): set<(nat, nat)> {
    set i: nat, j: nat |
      && i < |ps| && j < |leaves|
      && (ps[i].givesKey ==> CString(ps[i].key) == Cut(leaves[j].key, u.keySize))
      && (ps[i].givesValue ==> CString(ps[i].value) == Cut(leaves[j].value, u.valueSize)) :: (i, j)
  }

  function Matches(u: Setup, ps: seq<Pair>, leaves: seq<Leaf>): nat {
    |Matching(u, ps, leaves)|
  }

  /** Each leaf adds as many matches as the reader counts for it. */
  lemma MatchesNext(u: Setup, ps: seq<Pair>, leaves: seq<Leaf>, l: Leaf)
    ensures Matches(u, ps, leaves + [l])
            == Matches(u, ps, leaves) + CountHits(ps, Cut(l.key, u.keySize), Cut(l.value, u.valueSize))
  {
    hide CString, Cut;
    var n := |leaves|;
    var added := MatchingAt(u, ps, n, l);
    MatchingNext(u, ps, leaves, l);
    assert Matching(u, ps, leaves) !! added;
    LeafMatches(u, ps, n, l);
  }

  /** The matches of one leaf, standing at place n. */
  function MatchingAt(u: Setup, ps: seq<Pair>, n: nat, l: Leaf): set<(nat, nat)> {
    set i: nat | i < |ps| && Hits(ps[i], Cut(l.key, u.keySize), Cut(l.value, u.valueSize)) :: (i, n)
  }

  lemma MatchingNext(u: Setup, ps: seq<Pair>, leaves: seq<Leaf>, l: Leaf)
    ensures Matching(u, ps, leaves + [l]) == Matching(u, ps, leaves) + MatchingAt(u, ps, |leaves|, l)
  {
    hide CString, Cut;
  }

  lemma {:induction false} LeafMatches(u: Setup, ps: seq<Pair>, n: nat, l: Leaf)
    ensures |MatchingAt(u, ps, n, l)| == CountHits(ps, Cut(l.key, u.keySize), Cut(l.value, u.valueSize))
    decreases |ps|
  {
    hide CString, Cut, Hits;
    if ps == [] {
      assert MatchingAt(u, ps, n, l) == {};
    } else {
      var k := |ps| - 1;
      LeafMatches(u, ps[..k], n, l);
      var last: set<(nat, nat)> := if Hits(ps[k], Cut(l.key, u.keySize), Cut(l.value, u.valueSize)) then {(k, n)} else {};
      assert MatchingAt(u, ps, n, l) == MatchingAt(u, ps[..k], n, l) + last;
    }
  }

  lemma NothingMatches(u: Setup, ps: seq<Pair>)
    ensures Matches(u, ps, []) == 0
  {
    assert Matching(u, ps, []) == {};
  }

  lemma {:induction false} MatchesConcat(u: Setup, ps: seq<Pair>, a: seq<Leaf>, b: seq<Leaf>)
    ensures Matches(u, ps, a + b) == Matches(u, ps, a) + Matches(u, ps, b)
    decreases |b|
  {
    hide Matches, CountHits, Cut;
    if b == [] {
      assert a + b == a;
      NothingMatches(u, ps);
    } else {
      var k := |b| - 1;
      assert a + b == (a + b[..k]) + [b[k]] && b == b[..k] + [b[k]];
      MatchesConcat(u, ps, a, b[..k]);
      MatchesNext(u, ps, a + b[..k], b[k]);
      MatchesNext(u, ps, b[..k], b[k]);
    }
  }

  /** The given fields, which decide what matches, are the same. */
  ghost predicate SameGivens(ps: seq<Pair>, qs: seq<Pair>) {
    |ps| == |qs| && forall i :: 0 <= i < |ps| ==> SameGiven(ps[i], qs[i])
  }

  predicate SameGiven(p: Pair, q: Pair) {
    && p.givesKey == q.givesKey && p.givesValue == q.givesValue && p.transient == q.transient
    && (p.givesKey ==> p.key == q.key) && (p.givesValue ==> p.value == q.value)
    && |p.key| == |q.key| && |p.value| == |q.value|
  }

  lemma GivensMatch(u: Setup, ps: seq<Pair>, qs: seq<Pair>, leaves: seq<Leaf>)
    requires SameGivens(ps, qs)
    ensures Matches(u, ps, leaves) == Matches(u, qs, leaves)
  {
    hide CString, Cut, SameGiven;
    forall i | 0 <= i < |ps|
      ensures ps[i].givesKey == qs[i].givesKey && ps[i].givesValue == qs[i].givesValue
      ensures (ps[i].givesKey ==> ps[i].key == qs[i].key) && (ps[i].givesValue ==> ps[i].value == qs[i].value)
    {
      Givens(ps[i], qs[i]);
    }
    assert Matching(u, ps, leaves) == Matching(u, qs, leaves);
  }

  lemma Givens(p: Pair, q: Pair)
    requires SameGiven(p, q)
    ensures p.givesKey == q.givesKey && p.givesValue == q.givesValue
    ensures (p.givesKey ==> p.key == q.key) && (p.givesValue ==> p.value == q.value)
  {}

  lemma CapturesKeepGivens(ps: seq<Pair>, k: text, v: text, d: uint8)
    ensures SameGivens(ps, TouchAll(ps, k, v, d)) && SameGivens(ps, ForgetAll(ps, d))
  {}

  lemma GivensSelf(ps: seq<Pair>)
    ensures SameGivens(ps, ps)
  {}

  lemma GivensThen(ps: seq<Pair>, qs: seq<Pair>, rs: seq<Pair>)
    requires SameGivens(ps, qs) && SameGivens(qs, rs)
    ensures SameGivens(ps, rs)
  {
    forall i | 0 <= i < |ps|
      ensures SameGiven(ps[i], rs[i])
    {
      assert SameGiven(ps[i], qs[i]) && SameGiven(qs[i], rs[i]);
    }
  }

  predicate FullKeys(u: Setup) {
    u.keySize >= 2
  }

  lemma CutKey(u: Setup, k: text)
    requires FullKeys(u)
    ensures Cut(k, u.keySize) == [] <==> k == []
    ensures Cut([], u.valueSize) == []
  {}

  /** One key and value, or nothing where both are empty. */
  lemma LeafCount(u: Setup, ps: seq<Pair>, k: text, c: text, d: nat)
    requires FullKeys(u) && d < MAX_DEPTH && (k == [] ==> c == [])
    ensures var m := MeanLeaf(u, ps, k, c, d);
            m.count == Matches(u, ps, if k == [] then [] else [Leaf(k, c)]) && SameGivens(ps, m.pairs)
  {
    hide CountHits, Touch, Cut, Matches;
    CutKey(u, k);
    CapturesKeepGivens(ps, Cut(k, u.keySize), Cut(c, u.valueSize), d);
    GivensSelf(ps);
    NothingMatches(u, ps);
    assert [] + [Leaf(k, c)] == [Leaf(k, c)];
    MatchesNext(u, ps, [], Leaf(k, c));
  }

  /** The count tested when an object closes: the matches of its own members, or with the recursive
      option those of its whole subtree. */
  lemma {:induction false} ObjectCount(u: Setup, ps: seq<Pair>, k: text, o: Object, d: nat)
    requires FullKeys(u) && FitObject(o, d, u.valueSize)
    ensures var m := MeanObject(u, ps, k, o, d);
            m.count == Matches(u, ps, ObjectLeaves(u, u.options.recurse, k, o)) && SameGivens(ps, m.pairs)
    decreases o, 1
  {
    hide CountHits, Forget, Touch, MeanLeaf, Matches, SameGiven;
    CapturesKeepGivens(ps, [], [], d);
    var qs := ForgetAll(ps, d);
    if o.members == NoMembers {
      LeafCount(u, qs, k, [], d);
    } else {
      MembersCount(u, qs, o.members, d);
    }
    var c := MeanContent(u, qs, k, o, d);
    assert SameGivens(qs, c.pairs) && MeanObject(u, ps, k, o, d).pairs == c.pairs;
    GivensThen(ps, qs, c.pairs);
    GivensMatch(u, ps, qs, ObjectLeaves(u, u.options.recurse, k, o));
  }

  lemma {:induction false} MembersCount(u: Setup, ps: seq<Pair>, ms: Members, d: nat)
    requires FullKeys(u) && d < MAX_DEPTH && FitMembers(ms, d, u.valueSize)
    ensures var m := MeanMembers(u, ps, ms, d);
            m.count == Matches(u, ps, Leaves(u, u.options.recurse, ms)) && SameGivens(ps, m.pairs)
    decreases ms
  {
    hide CountHits, MeanMember, LeavesOf, Matches;
    NothingMatches(u, ps);
    if ms.Member? {
      var a := MeanMember(u, ps, ms.key, ms.value, d);
      MemberCount(u, ps, ms.key, ms.value, d);
      MembersCount(u, a.pairs, ms.rest, d);
      GivensMatch(u, ps, a.pairs, Leaves(u, u.options.recurse, ms.rest));
      MatchesConcat(u, ps, LeavesOf(u, u.options.recurse, ms.key, ms.value), Leaves(u, u.options.recurse, ms.rest));
    }
  }

  lemma {:induction false} MemberCount(u: Setup, ps: seq<Pair>, k: text, v: Value, d: nat)
    requires FullKeys(u) && d < MAX_DEPTH && k != [] && FitValue(v, d, u.valueSize)
    ensures var m := MeanMember(u, ps, k, v, d);
            m.count == Matches(u, ps, LeavesOf(u, u.options.recurse, k, v)) && SameGivens(ps, m.pairs)
    decreases v
  {
    hide CountHits, MeanObject, MeanObjects, MeanLeaf, ObjectLeaves, LeavesAll, Matches;
    NothingMatches(u, ps);
    if v.Sub? {
      ObjectCount(u, ps, Pending(u, k), v.o, d + 1);
    } else if v.Items? && v.os.MoreObjects? {
      ObjectsCount(u, ps, Pending(u, k), v.os, d + 1);
    } else {
      LeafCount(u, ps, k, Content(v), d);
    }
  }

  lemma {:induction false} ObjectsCount(u: Setup, ps: seq<Pair>, k: text, os: Objects, d: nat)
    requires FullKeys(u) && FitObjects(os, d, u.valueSize)
    ensures var m := MeanObjects(u, ps, k, os, d);
            SameGivens(ps, m.pairs) && (u.options.recurse ==> m.count == Matches(u, ps, LeavesAll(u, k, os)))
    decreases os
  {
    hide CountHits, MeanObject, ObjectLeaves, SameGiven, Matches;
    NothingMatches(u, ps);
    if os.MoreObjects? {
      var a := MeanObject(u, ps, k, os.o, d);
      ObjectCount(u, ps, k, os.o, d);
      ObjectsCount(u, a.pairs, [], os.rest, d);
      GivensThen(ps, a.pairs, MeanObjects(u, a.pairs, [], os.rest, d).pairs);
      GivensMatch(u, ps, a.pairs, LeavesAll(u, [], os.rest));
      MatchesConcat(u, ps, ObjectLeaves(u, true, k, os.o), LeavesAll(u, [], os.rest));
    } else {
      GivensSelf(ps);
    }
  }

  // ---------- How many reports ----------

  /** An object is reported when it is deep enough and its count, as an 8-bit number, reaches the
      threshold. */
  predicate Reported(u: Setup, ps: seq<Pair>, k: text, o: Object, d: nat)
    requires d > 0
  {
    d - 1 >= u.options.minDepth && Matches(u, ps, ObjectLeaves(u, u.options.recurse, k, o)) % 256 >= u.options.threshold
  }

  /** The number of objects in a document, at any depth, that are to be reported. */
  function ReportedIn(u: Setup, ps: seq<Pair>, k: text, o: Object, d: nat): nat
    requires d > 0
    decreases o
  {
    ReportedInMembers(u, ps, o.members, d) + if Reported(u, ps, k, o, d) then 1 else 0
  }

  function ReportedInMembers(u: Setup, ps: seq<Pair>, ms: Members, d: nat): nat
    decreases ms
  {
    match ms
    case NoMembers => 0
    case Member(k, Sub(o), rest) => ReportedIn(u, ps, Pending(u, k), o, d + 1) + ReportedInMembers(u, ps, rest, d)
    case Member(k, Items(os), rest) => ReportedInAll(u, ps, Pending(u, k), os, d + 1) + ReportedInMembers(u, ps, rest, d)
    case Member(_, _, rest) => ReportedInMembers(u, ps, rest, d)
  }

  function ReportedInAll(u: Setup, ps: seq<Pair>, k: text, os: Objects, d: nat): nat
    requires d > 0
    decreases os
  {
    match os
    case NoObjects => 0
    case MoreObjects(o, rest) => ReportedIn(u, ps, k, o, d) + ReportedInAll(u, ps, [], rest, d)
  }

  /** Whatever is captured on the way, `ps` may be the pairs as they were at the start. */
  lemma {:induction false} ObjectReports(u: Setup, start: seq<Pair>, ps: seq<Pair>, k: text, o: Object, d: nat)
    requires FullKeys(u) && d > 0 && FitObject(o, d, u.valueSize) && SameGivens(start, ps)
    ensures |MeanObject(u, ps, k, o, d).events| == ReportedIn(u, start, k, o, d)
    decreases o, 1
  {
    hide SameGiven, Matches, ObjectLeaves, MeanLeaf;
    var qs := ForgetAll(ps, d);
    CapturesKeepGivens(ps, [], [], d);
    GivensThen(start, ps, qs);
    if o.members.Member? {
      MembersReports(u, start, qs, o.members, d);
    }
    ObjectCount(u, ps, k, o, d);
    GivensMatch(u, start, ps, ObjectLeaves(u, u.options.recurse, k, o));
  }

  lemma {:induction false} MembersReports(u: Setup, start: seq<Pair>, ps: seq<Pair>, ms: Members, d: nat)
    requires FullKeys(u) && d < MAX_DEPTH && FitMembers(ms, d, u.valueSize) && SameGivens(start, ps)
    ensures |MeanMembers(u, ps, ms, d).events| == ReportedInMembers(u, start, ms, d)
    decreases ms
  {
    hide SameGiven, Matches, Leaves, MeanObject, MeanObjects;
    if ms.Member? {
      var a := MeanMember(u, ps, ms.key, ms.value, d);
      MemberCount(u, ps, ms.key, ms.value, d);
      GivensThen(start, ps, a.pairs);
      if ms.value.Sub? {
        ObjectReports(u, start, ps, Pending(u, ms.key), ms.value.o, d + 1);
      } else if ms.value.Items? {
        ObjectsReports(u, start, ps, Pending(u, ms.key), ms.value.os, d + 1);
      }
      MembersReports(u, start, a.pairs, ms.rest, d);
    }
  }

  lemma {:induction false} ObjectsReports(u: Setup, start: seq<Pair>, ps: seq<Pair>, k: text, os: Objects, d: nat)
    requires FullKeys(u) && d > 0 && FitObjects(os, d, u.valueSize) && SameGivens(start, ps)
    ensures |MeanObjects(u, ps, k, os, d).events| == ReportedInAll(u, start, k, os, d)
    decreases os
  {
    hide SameGiven, Matches, ObjectLeaves, MeanObject;
    if os.MoreObjects? {
      var a := MeanObject(u, ps, k, os.o, d);
      ObjectReports(u, start, ps, k, os.o, d);
      ObjectCount(u, ps, k, os.o, d);
      GivensThen(start, ps, a.pairs);
      ObjectsReports(u, start, a.pairs, [], os.rest, d);
    }
  }

  /** The number of reports a document is to raise. */
  function ReportedInDocument(u: Setup, ps: seq<Pair>, v: Value): nat
    requires v.Sub? || v.Items?
  {
    if v.Sub? then ReportedIn(u, ps, [], v.o, 1) else ReportedInAll(u, ps, [], v.os, 1)
  }

  lemma DocumentReports(u: Setup, ps: seq<Pair>, v: Value)
    requires FullKeys(u) && FitDocument(v, u.valueSize)
    ensures |MeanDocument(u, ps, v).events| == ReportedInDocument(u, ps, v)
  {
    hide MeanObject, MeanObjects, ReportedIn, ReportedInAll, SameGivens;
    GivensSelf(ps);
    if v.Sub? {
      ObjectReports(u, ps, ps, [], v.o, 1);
    } else {
      ObjectsReports(u, ps, ps, [], v.os, 1);
    }
  }

  /** A document read in chunks raises as many end-of-object reports as it has objects, at any
      depth, whose matches reach the threshold: with the recursive option, the matches of the whole
      subtree. */
  lemma ReportsAreCounted(e: Env, v: Value, chunks: seq<text>)
    requires Fresh(e) && FitDocument(v, |e.value|) && Strip(false, Join(chunks)) == PrintValue(v)
    ensures SafeAll(e, Join(chunks))
    ensures |DriveAll(e, chunks).events| == ReportedInDocument(SetupOf(e), e.pairs, v)
  {
    hide CString, Env.Wf, Env.Listening, DriveAll, MeanDocument, ReportedInDocument;
    PrintThenRead(e, v, chunks);
    DocumentReports(SetupOf(e), e.pairs, v);
  }

  // ---------- What is captured ----------

  /** The value printed last under a key, as far as the key buffer tells keys apart. */
  function LastValue(u: Setup, leaves: seq<Leaf>, key: text, before: text): text {
    if leaves == [] then before
    else
      var l := leaves[|leaves| - 1];
      if Cut(l.key, u.keySize) == key then CopyInto(before, Cut(l.value, u.valueSize))
      else LastValue(u, leaves[..|leaves| - 1], key, before)
  }

  /** A pair that gives a key, captures the value, and is not transient. */
  predicate Keeps(p: Pair) {
    p.givesKey && !p.givesValue && !p.transient
  }

  lemma {:induction false} LastValueConcat(u: Setup, a: seq<Leaf>, b: seq<Leaf>, key: text, before: text)
    ensures LastValue(u, a + b, key, before) == LastValue(u, b, key, LastValue(u, a, key, before))
    ensures |LastValue(u, a, key, before)| == |before|
    decreases |a| + |b|
  {
    if b == [] {
      assert a + b == a;
      if a != [] {
        LastValueConcat(u, a[..|a| - 1], [], key, before);
        assert a[..|a| - 1] + [] == a[..|a| - 1];
      }
    } else {
      LastValueConcat(u, a, b[..|b| - 1], key, before);
      assert (a + b)[..|a + b| - 1] == a + b[..|b| - 1];
    }
  }

  /** Such a pair afterwards: its value is the last one printed under its key. */
  ghost predicate Captured(u: Setup, p: Pair, leaves: seq<Leaf>, q: Pair) {
    q == p.(depth := q.depth, value := LastValue(u, leaves, CString(p.key), p.value))
  }

  lemma CapturedThen(u: Setup, p: Pair, a: seq<Leaf>, q: Pair, b: seq<Leaf>, r: Pair)
    requires Captured(u, p, a, q) && Captured(u, q, b, r)
    ensures Captured(u, p, a + b, r)
  {
    LastValueConcat(u, a, b, CString(p.key), p.value);
  }

  lemma {:induction false} ObjectCaptures(u: Setup, ps: seq<Pair>, k: text, o: Object, d: nat, i: nat)
    requires FullKeys(u) && FitObject(o, d, u.valueSize) && i < |ps| && Keeps(ps[i])
    ensures var m := MeanObject(u, ps, k, o, d);
            |m.pairs| == |ps| && Captured(u, ps[i], ObjectLeaves(u, true, k, o), m.pairs[i])
    decreases o, 1
  {
    hide CString, Leaves, MeanLeaf, Captured;
    var qs := ForgetAll(ps, d);
    assert qs[i] == ps[i];
    if o.members.Member? {
      MembersCapture(u, qs, o.members, d, i);
    } else {
      LeafCaptures(u, qs, k, [], d, i);
    }
  }

  lemma {:induction false} MembersCapture(u: Setup, ps: seq<Pair>, ms: Members, d: nat, i: nat)
    requires FullKeys(u) && d < MAX_DEPTH && FitMembers(ms, d, u.valueSize) && i < |ps| && Keeps(ps[i])
    ensures var m := MeanMembers(u, ps, ms, d);
            |m.pairs| == |ps| && Captured(u, ps[i], Leaves(u, true, ms), m.pairs[i])
    decreases ms
  {
    hide CString, MeanMember, LeavesOf, LastValue;
    if ms.Member? {
      var a := MeanMember(u, ps, ms.key, ms.value, d);
      MemberCaptures(u, ps, ms.key, ms.value, d, i);
      MembersCapture(u, a.pairs, ms.rest, d, i);
      CapturedThen(u, ps[i], LeavesOf(u, true, ms.key, ms.value), a.pairs[i],
                   Leaves(u, true, ms.rest), MeanMembers(u, a.pairs, ms.rest, d).pairs[i]);
    } else {
      NothingCaptured(u, ps[i]);
    }
  }

  lemma NothingCaptured(u: Setup, p: Pair)
    ensures Captured(u, p, [], p)
  {}

  lemma {:induction false} MemberCaptures(u: Setup, ps: seq<Pair>, k: text, v: Value, d: nat, i: nat)
    requires FullKeys(u) && d < MAX_DEPTH && k != [] && FitValue(v, d, u.valueSize) && i < |ps| && Keeps(ps[i])
    ensures var m := MeanMember(u, ps, k, v, d);
            |m.pairs| == |ps| && Captured(u, ps[i], LeavesOf(u, true, k, v), m.pairs[i])
    decreases v
  {
    hide CString, MeanObject, MeanObjects, CopyInto, MeanLeaf, ObjectLeaves, LeavesAll;
    if v.Sub? {
      ObjectCaptures(u, ps, Pending(u, k), v.o, d + 1, i);
    } else if v.Items? && v.os.MoreObjects? {
      ObjectsCapture(u, ps, Pending(u, k), v.os, d + 1, i);
    } else {
      LeafCaptures(u, ps, k, Content(v), d, i);
    }
  }

  lemma LeafCaptures(u: Setup, ps: seq<Pair>, k: text, c: text, d: nat, i: nat)
    requires FullKeys(u) && d < MAX_DEPTH && (k == [] ==> c == []) && i < |ps| && ps[i].givesKey && !ps[i].givesValue
    ensures |MeanLeaf(u, ps, k, c, d).pairs| == |ps|
    ensures Captured(u, ps[i], if k == [] then [] else [Leaf(k, c)], MeanLeaf(u, ps, k, c, d).pairs[i])
  {
    hide CString, CopyInto, Cut;
    var p, k', v' := ps[i], Cut(k, u.keySize), Cut(c, u.valueSize);
    CutKey(u, k);
    if k == [] {
      NothingCaptured(u, p);
    } else {
      assert MeanLeaf(u, ps, k, c, d).pairs[i] == Touch(p, k', v', d);
      var l := [Leaf(k, c)];
      assert l[..0] == [] && LastValue(u, [], CString(p.key), p.value) == p.value;
      assert LastValue(u, l, CString(p.key), p.value) == if k' == CString(p.key) then CopyInto(p.value, v') else p.value;
    }
  }

  lemma {:induction false} ObjectsCapture(u: Setup, ps: seq<Pair>, k: text, os: Objects, d: nat, i: nat)
    requires FullKeys(u) && FitObjects(os, d, u.valueSize) && i < |ps| && Keeps(ps[i])
    ensures var m := MeanObjects(u, ps, k, os, d);
            |m.pairs| == |ps| && Captured(u, ps[i], LeavesAll(u, k, os), m.pairs[i])
    decreases os
  {
    hide CString, MeanObject, ObjectLeaves, LastValue;
    if os.MoreObjects? {
      var a := MeanObject(u, ps, k, os.o, d);
      ObjectCaptures(u, ps, k, os.o, d, i);
      ObjectsCapture(u, a.pairs, [], os.rest, d, i);
      CapturedThen(u, ps[i], ObjectLeaves(u, true, k, os.o), a.pairs[i],
                   LeavesAll(u, [], os.rest), MeanObjects(u, a.pairs, [], os.rest, d).pairs[i]);
    } else {
      NothingCaptured(u, ps[i]);
    }
  }

  /** The string a capturing buffer ends up holding: cut to the buffer's size, with no NUL of its
      own when it fills the buffer. */
  lemma HeldString(buffer: text, s: text)
    requires NUL !in s
    ensures CString(CopyInto(buffer, s)) == if |s| <= |buffer| then s else s[..|buffer|]
  {
    var b := CopyInto(buffer, s);
    var t := if |s| <= |buffer| then s else s[..|buffer|];
    assert forall i :: 0 <= i < |t| ==> b[i] == s[i] && s[i] in s;
    assert |t| < |b| ==> b[|t|] == NUL;
    assert b[..|t|] == t;
  }

  // ---------- Errors ----------

  /** What a match notes: a pair that gives nothing, and a captured string with no buffer to go to. */
  lemma {:induction false} MatchErrorsExactly(e: Errors, ps: seq<Pair>, k: text, v: text)
    ensures var r := NoteErrors(e, ps, k, v);
            && r.keyOverflow == e.keyOverflow && r.valueOverflow == e.valueOverflow
            && (r.emptyPair <==> e.emptyPair || exists p :: p in ps && GivesNothing(p))
            && (r.zeroLength <==> e.zeroLength || exists p :: p in ps && NoBuffer(p, k, v))
    decreases |ps|
  {
    hide NoteError, NoBuffer, GivesNothing;
    if ps != [] {
      var n := |ps| - 1;
      MatchErrorsExactly(e, ps[..n], k, v);
      OneMatchError(NoteErrors(e, ps[..n], k, v), ps[n], k, v);
      assert forall p :: p in ps <==> p in ps[..n] || p == ps[n];
    }
  }

  lemma OneMatchError(e: Errors, p: Pair, k: text, v: text)
    ensures NoteError(e, p, k, v) ==
            e.(emptyPair := e.emptyPair || GivesNothing(p), zeroLength := e.zeroLength || NoBuffer(p, k, v))
  {
    hide CString;
  }

  predicate GivesNothing(p: Pair) {
    !p.givesKey && !p.givesValue
  }

  predicate NoBuffer(p: Pair, k: text, v: text) {
    || (p.givesKey && !p.givesValue && CString(p.key) == k && p.value == [])
    || (p.givesValue && !p.givesKey && CString(p.value) == v && p.key == [])
  }

  /** Reading on in quotes notes an overflow exactly if the string does not fit what is left of its
      buffer, one place being kept for the final NUL. */
  lemma {:induction false} OverflowExactly(e: Env, s: text)
    requires e.Wf() && e.Listening() && e.inQuotes && '"' !in s
    ensures SafeAll(e, s)
    ensures var r := Fold(e, s).env.errors;
            r == if e.colon then e.errors.(valueOverflow := e.errors.valueOverflow || (s != [] && e.writeIdx + |s| >= |e.value|))
                 else e.errors.(keyOverflow := e.errors.keyOverflow || (s != [] && e.writeIdx + |s| >= |e.key|))
    decreases |s|
  {
    if s != [] {
      QuotedError(e, s[0]);
      OverflowExactly(Feed(e, s[0]), s[1..]);
    }
  }

  lemma QuotedError(e: Env, c: octet)
    requires e.Wf() && e.Listening() && e.inQuotes && c != '"'
    ensures Safe(e, c)
    ensures var r, size := Feed(e, c), if e.colon then |e.value| else |e.key|;
            && r.Listening() && r.inQuotes && r.colon == e.colon && |r.key| == |e.key| && |r.value| == |e.value|
            && r.writeIdx == (if e.writeIdx + 1 < size then e.writeIdx + 1 else e.writeIdx)
            && r.errors == if e.writeIdx + 1 < size then e.errors
                           else if e.colon then e.errors.(valueOverflow := true) else e.errors.(keyOverflow := true)
  {
  }

  // ---------- Flat arrays ----------

  predicate Flat(ms: Members) {
    ms.Member? ==> !ms.value.Sub? && !(ms.value.Items? && ms.value.os.MoreObjects?) && Flat(ms.rest)
  }

  function ToObjects(s: seq<Object>): Objects {
    if s == [] then NoObjects else MoreObjects(s[0], ToObjects(s[1..]))
  }

  predicate FitFlat(s: seq<Object>, valueSize: nat) {
    forall o :: o in s ==> FitObject(o, 1, valueSize) && Flat(o.members)
  }

  lemma {:induction false} FitFlatObjects(s: seq<Object>, valueSize: nat)
    requires FitFlat(s, valueSize)
    ensures FitObjects(ToObjects(s), 1, valueSize)
  {
    hide FitObject;
    if s != [] {
      assert s[0] in s;
      FitFlatObjects(s[1..], valueSize);
    }
  }

  /** The pairs after all these objects. */
  function PairsAfter(u: Setup, ps: seq<Pair>, s: seq<Object>): seq<Pair>
    requires FitFlat(s, u.valueSize)
  {
    if s == [] then ps
    else
      assert s[|s| - 1] in s;
      MeanObject(u, PairsAfter(u, ps, s[..|s| - 1]), [], s[|s| - 1], 1).pairs
  }

  /** One report for each object that earns it, in order, showing the pairs as that object left them. */
  function FlatReports(u: Setup, ps: seq<Pair>, s: seq<Object>): seq<seq<Pair>>
    requires FitFlat(s, u.valueSize)
  {
    if s == [] then []
    else
      FlatReports(u, ps, s[..|s| - 1]) + if Reported(u, ps, [], s[|s| - 1], 1) then [PairsAfter(u, ps, s)] else []
  }

  lemma {:induction false} FlatQuiet(u: Setup, ps: seq<Pair>, ms: Members, d: nat)
    requires d < MAX_DEPTH && FitMembers(ms, d, u.valueSize) && Flat(ms)
    ensures MeanMembers(u, ps, ms, d).events == []
    decreases ms
  {
    hide MeanLeaf;
    if ms.Member? {
      FlatQuiet(u, MeanMember(u, ps, ms.key, ms.value, d).pairs, ms.rest, d);
    }
  }

  lemma FlatObjectReport(u: Setup, ps: seq<Pair>, o: Object)
    requires FullKeys(u) && FitObject(o, 1, u.valueSize) && Flat(o.members)
    ensures var m := MeanObject(u, ps, [], o, 1);
            m.events == if Reported(u, ps, [], o, 1) then [m.pairs] else []
  {
    hide Matches, ObjectLeaves;
    ObjectCount(u, ps, [], o, 1);
    if o.members.Member? {
      FlatQuiet(u, ForgetAll(ps, 1), o.members, 1);
    }
  }

  /** The objects read from the front, as the meaning does, or counted from the back, as above. */
  lemma {:induction false} ObjectsSplit(u: Setup, ps: seq<Pair>, s: seq<Object>, o: Object)
    requires FitFlat(s + [o], u.valueSize)
    ensures FitFlat(s, u.valueSize) && FitObject(o, 1, u.valueSize)
    ensures FitObjects(ToObjects(s), 1, u.valueSize) && FitObjects(ToObjects(s + [o]), 1, u.valueSize)
    ensures var a := MeanObjects(u, ps, [], ToObjects(s), 1);
            var b := MeanObject(u, a.pairs, [], o, 1);
            && MeanObjects(u, ps, [], ToObjects(s + [o]), 1).events == a.events + b.events
            && MeanObjects(u, ps, [], ToObjects(s + [o]), 1).pairs == b.pairs
    decreases |s|
  {
    hide FitObject, MeanObject, Flat;
    assert o in s + [o] && forall x :: x in s ==> x in s + [o];
    FitFlatObjects(s, u.valueSize);
    FitFlatObjects(s + [o], u.valueSize);
    if s == [] {
      assert [o][1..] == [] && s + [o] == [o];
      assert ToObjects([o]) == MoreObjects(o, NoObjects);
      var b := MeanObject(u, ps, [], o, 1);
      assert [] + b.events == b.events == b.events + [];
    } else {
      assert (s + [o])[1..] == s[1..] + [o] && (s + [o])[0] == s[0];
      assert forall x :: x in s[1..] + [o] ==> x in s + [o];
      var a := MeanObject(u, ps, [], s[0], 1);
      ObjectsSplit(u, a.pairs, s[1..], o);
    }
  }

  lemma {:induction false} FlatMeaning(u: Setup, ps: seq<Pair>, s: seq<Object>)
    requires FullKeys(u) && FitFlat(s, u.valueSize)
    ensures FitObjects(ToObjects(s), 1, u.valueSize)
    ensures MeanObjects(u, ps, [], ToObjects(s), 1).events == FlatReports(u, ps, s)
    ensures MeanObjects(u, ps, [], ToObjects(s), 1).pairs == PairsAfter(u, ps, s)
    decreases |s|
  {
    hide FitObject, SameGiven, Matches;
    FitFlatObjects(s, u.valueSize);
    if s != [] {
      var t, o := s[..|s| - 1], s[|s| - 1];
      assert s == t + [o] && o in s;
      FlatMeaning(u, ps, t);
      ObjectsSplit(u, ps, t, o);
      var qs := PairsAfter(u, ps, t);
      ObjectsCount(u, ps, [], ToObjects(t), 1);
      GivensMatch(u, ps, qs, ObjectLeaves(u, u.options.recurse, [], o));
      FlatObjectReport(u, qs, o);
    }
  }

  /** A printed array of flat objects, blanks and chunks as they may fall: each object raises exactly
      one report if and only if its matches reach the threshold, and none otherwise; at that moment a
      pair that gives only its key holds the last value printed so far for that key. */
  lemma FlatArrayRead(e: Env, s: seq<Object>, chunks: seq<text>)
    requires Fresh(e) && s != [] && FitFlat(s, |e.value|)
    requires Strip(false, Join(chunks)) == PrintValue(Items(ToObjects(s)))
    ensures SafeAll(e, Join(chunks)) && DriveAll(e, chunks).events == FlatReports(SetupOf(e), e.pairs, s)
    ensures forall n, i :: 0 <= n <= |s| && 0 <= i < |e.pairs| && Keeps(e.pairs[i]) ==>
              FitFlat(s[..n], |e.value|) && |PairsAfter(SetupOf(e), e.pairs, s[..n])| == |e.pairs|
              && Captured(SetupOf(e), e.pairs[i], LeavesAll(SetupOf(e), [], ToObjects(s[..n])), PairsAfter(SetupOf(e), e.pairs, s[..n])[i])
  {
    hide CString, Env.Wf, Env.Listening, FitObject, MeanObjects, PairsAfter, DriveAll, SafeAll, Flat;
    var u := SetupOf(e);
    FlatMeaning(u, e.pairs, s);
    PrintThenRead(e, Items(ToObjects(s)), chunks);
    forall n, i | 0 <= n <= |s| && 0 <= i < |e.pairs| && Keeps(e.pairs[i])
      ensures FitFlat(s[..n], |e.value|) && |PairsAfter(u, e.pairs, s[..n])| == |e.pairs|
      ensures Captured(u, e.pairs[i], LeavesAll(SetupOf(e), [], ToObjects(s[..n])), PairsAfter(u, e.pairs, s[..n])[i])
    {
      assert forall o :: o in s[..n] ==> o in s;
      FlatMeaning(u, e.pairs, s[..n]);
      ObjectsCapture(u, e.pairs, [], ToObjects(s[..n]), 1, i);
    }
  }

  // ---------- The HTTP header ----------

  /** The header filter's memory after some characters: the last four, base 256. */
  function Memory(s: text): uint32 {
    if s == [] then 0 else Push(Memory(s[..|s| - 1]), s[|s| - 1])
  }

  predicate EndsHeader(s: text) {
    |s| >= 4 && s[|s| - 4..] == ['\r', '\n', '\r', '\n']
  }

  lemma PushParts(m: uint32, c: octet)
    ensures Push(m, c) % 0x100 == c as int
    ensures Push(m, c) % 0x1_0000 == m % 0x100 * 0x100 + c as int
    ensures Push(m, c) % 0x100_0000 == m % 0x1_0000 * 0x100 + c as int
  {
    var h, low := m % 0x100_0000, c as int;
    assert Push(m, c) == h * 0x100 + low;
    LowByte(h, low);
    LowTwo(h, low);
    LowThree(h, low);
    ModTwice(m);
  }

  lemma ModTwice(m: nat)
    ensures m % 0x100_0000 % 0x100 == m % 0x100 && m % 0x100_0000 % 0x1_0000 == m % 0x1_0000
  {
    var q, h := m / 0x100_0000, m % 0x100_0000;
    assert m == q * 0x100_0000 + h;
    LowOfSum(q, h / 0x100, h % 0x100);
    LowWordOfSum(q, h / 0x1_0000, h % 0x1_0000);
  }

  lemma LowOfSum(q: nat, n: nat, c: nat)
    requires c < 0x100
    ensures (q * 0x100_0000 + (n * 0x100 + c)) % 0x100 == c
  {
    LowByte(q * 0x1_0000 + n, c);
  }

  lemma LowWordOfSum(q: nat, n: nat, w: nat)
    requires w < 0x1_0000
    ensures (q * 0x100_0000 + (n * 0x1_0000 + w)) % 0x1_0000 == w
  {
    var k := q * 0x100 + n;
    assert q * 0x100_0000 + (n * 0x1_0000 + w) == k * 0x1_0000 + w;
  }

  lemma LowByte(h: nat, c: nat)
    requires c < 0x100
    ensures (h * 0x100 + c) % 0x100 == c
  {}

  lemma LowTwo(h: nat, c: nat)
    requires c < 0x100
    ensures (h * 0x100 + c) % 0x1_0000 == h % 0x100 * 0x100 + c
  {
    var q, r := h / 0x100, h % 0x100;
    assert h * 0x100 + c == q * 0x1_0000 + (r * 0x100 + c);
  }

  lemma LowThree(h: nat, c: nat)
    requires c < 0x100
    ensures (h * 0x100 + c) % 0x100_0000 == h % 0x1_0000 * 0x100 + c
  {
    var q, r := h / 0x1_0000, h % 0x1_0000;
    assert h * 0x100 + c == q * 0x100_0000 + (r * 0x100 + c);
  }

  lemma MemoryTellsEnd(s: text)
    ensures Memory(s) == HEADER_DELIMITER <==> EndsHeader(s)
  {
    if |s| >= 4 {
      var s1, s2, s3 := s[..|s| - 1], s[..|s| - 2], s[..|s| - 3];
      assert s1[..|s| - 2] == s2 && s2[..|s| - 3] == s3;
      PushParts(Memory(s[..|s| - 4]), s[|s| - 4]);
      assert s3[..|s| - 4] == s[..|s| - 4];
      PushParts(Memory(s3), s[|s| - 3]);
      PushParts(Memory(s2), s[|s| - 2]);
      FourDigits(s[|s| - 4], s[|s| - 3], s[|s| - 2], s[|s| - 1]);
      var t := s[|s| - 4..];
      assert t == [s[|s| - 4], s[|s| - 3], s[|s| - 2], s[|s| - 1]];
    } else {
      ShortMemory(s);
    }
  }

  lemma FourDigits(a: octet, b: octet, c: octet, d: octet)
    ensures ((a as int * 0x100 + b as int) * 0x100 + c as int) * 0x100 + d as int == HEADER_DELIMITER
            <==> a == '\r' && b == '\n' && c == '\r' && d == '\n'
  {}

  lemma {:induction false} ShortMemory(s: text)
    requires |s| <= 3
    ensures Memory(s) < if |s| == 0 then 1 else if |s| == 1 then 0x100 else if |s| == 2 then 0x1_0000 else 0x100_0000
  {
    if s != [] {
      ShortMemory(s[..|s| - 1]);
    }
  }

  /** While no end of header has been seen, characters only pass through the filter's memory. */
  lemma {:induction false} HeaderIsSkipped(e: Env, h: text)
    requires e.Wf() && e.options.skipHeader && !e.httpBody && e.fifo4 == 0
    requires forall i :: 0 <= i <= |h| ==> !EndsHeader(h[..i])
    ensures Leads(e, h, Outcome(e.(fifo4 := Memory(h)), []))
    decreases |h|
  {
    hide EndsHeader, Env.Wf;
    if h == [] {
      EmptyText(e);
      assert e.(fifo4 := 0) == e;
    } else {
      var k := |h| - 1;
      assert forall i :: 0 <= i <= k ==> h[..k][..i] == h[..i];
      HeaderIsSkipped(e, h[..k]);
      var m := e.(fifo4 := Memory(h[..k]));
      assert h[..|h|] == h;
      MemoryTellsEnd(h);
      OneSkipped(m, h[k], Memory(h));
      ChainQuiet(e, h[..k], m, [h[k]], e.(fifo4 := Memory(h)));
      assert h[..k] + [h[k]] == h;
    }
  }

  lemma OneSkipped(e: Env, c: octet, fifo: uint32)
    requires e.Wf() && e.options.skipHeader && !e.httpBody
    requires fifo == Push(e.fifo4, c) != HEADER_DELIMITER
    ensures Leads(e, [c], Outcome(e.(fifo4 := fifo), []))
  {
    One(e, c);
  }

  lemma HeaderConsumed(e: Env, h: text)
    requires e.Wf() && e.options.skipHeader && !e.httpBody && e.fifo4 == 0 && !e.inQuotes
    requires EndsHeader(h) && forall i :: 0 <= i < |h| ==> !EndsHeader(h[..i])
    ensures Leads(e, h, Outcome(e.(httpBody := true, fifo4 := HEADER_DELIMITER), []))
  {
    hide EndsHeader, Push, SafeAll, Fold;
    var k, f := |h| - 1, e.(httpBody := true, fifo4 := HEADER_DELIMITER);
    HeaderEndsInNewline(h);
    assert forall i :: 0 <= i <= k ==> h[..k][..i] == h[..i];
    HeaderIsSkipped(e, h[..k]);
    MemoryTellsEnd(h);
    var m := e.(fifo4 := Memory(h[..k]));
    BodyBegins(m, f);
    ChainQuiet(e, h[..k], m, [h[k]], f);
    assert h[..k] + [h[k]] == h;
  }

  /** The header goes unread up to and including the first blank line, and the body is read as a
      reader that skips nothing would read it. */
  lemma HeaderThenBody(e: Env, h: text, body: text)
    requires e.Wf() && e.options.skipHeader && !e.httpBody && e.fifo4 == 0 && !e.inQuotes
    requires EndsHeader(h) && forall i :: 0 <= i < |h| ==> !EndsHeader(h[..i])
    ensures var f := e.(httpBody := true, fifo4 := HEADER_DELIMITER);
            f.Wf() && (SafeAll(e, h + body) <==> SafeAll(f, body)) && (SafeAll(f, body) ==> Fold(e, h + body) == Fold(f, body))
  {
    HeaderConsumed(e, h);
    hide EndsHeader, Feed, Safe, Ends;
    FoldConcat(e, h, body);
    var none: seq<seq<Pair>> := [];
    assert forall x: seq<seq<Pair>> :: none + x == x;
  }

  lemma HeaderEndsInNewline(h: text)
    requires EndsHeader(h)
    ensures |h| >= 4 && h[|h| - 1] == '\n'
  {
    assert h[|h| - 1] == h[|h| - 4..][3];
  }

  lemma BodyBegins(m: Env, f: Env)
    requires m.Wf() && m.options.skipHeader && !m.httpBody && !m.inQuotes
    requires Push(m.fifo4, '\n') == HEADER_DELIMITER
    requires f == m.(httpBody := true, fifo4 := HEADER_DELIMITER)
    ensures Leads(m, ['\n'], Outcome(f, []))
  {
    One(m, '\n');
  }
}
