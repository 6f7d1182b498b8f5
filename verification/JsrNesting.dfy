/** When the callers stop reading. They go on while the depth the reader tracks, of objects or of arrays,
    is not back at zero; that is exactly until the document they wait for is complete. */
module JsrNesting {
  import opened Jsr
  import opened JsrDocument
  import opened JsrTheorems

  /** A pair of brackets: those of objects or those of arrays. */
  datatype Kind = Braces | Brackets

  function Open(k: Kind): octet {
    if k.Braces? then '{' else '['
  }

  function Close(k: Kind): octet {
    if k.Braces? then '}' else ']'
  }

  // ---------- Levels in a text ----------

  /** Whether a text ends inside quotes. */
  predicate Quoting(q: bool, s: text)
    decreases |s|
  {
    if s == [] then q else Quoting(if s[0] == '"' then !q else q, s[1..])
  }

  /** What one character outside quotes adds to the level. */
  function Weight(k: Kind, c: octet): int {
    if c == Open(k) then 1 else if c == Close(k) then -1 else 0
  }

  /** How many brackets a text opens outside quotes and does not close. */
  function Level(k: Kind, q: bool, s: text): int
    decreases |s|
  {
    if s == [] then 0
    else (if q then 0 else Weight(k, s[0])) + Level(k, if s[0] == '"' then !q else q, s[1..])
  }

  lemma {:induction false} LevelConcat(k: Kind, q: bool, a: text, b: text)
    ensures Quoting(q, a + b) == Quoting(Quoting(q, a), b)
    ensures Level(k, q, a + b) == Level(k, q, a) + Level(k, Quoting(q, a), b)
    decreases |a|
  {
    if a == [] {
      assert a + b == b;
    } else {
      assert (a + b)[1..] == a[1..] + b;
      LevelConcat(k, if a[0] == '"' then !q else q, a[1..], b);
    }
  }

  /** Blanks outside quotes make no difference. */
  lemma {:induction false} LevelStrip(k: Kind, q: bool, s: text)
    ensures Quoting(q, Strip(q, s)) == Quoting(q, s) && Level(k, q, Strip(q, s)) == Level(k, q, s)
    decreases |s|
  {
    if s != [] {
      var after := if s[0] == '"' then !q else q;
      LevelStrip(k, after, s[1..]);
      if q || !Blank(s[0]) {
        assert Strip(q, s) == [s[0]] + Strip(after, s[1..]);
        assert Strip(q, s)[1..] == Strip(after, s[1..]);
      }
    }
  }

  lemma {:induction false} StripConcat(q: bool, a: text, b: text)
    ensures Strip(q, a + b) == Strip(q, a) + Strip(Quoting(q, a), b)
    decreases |a|
  {
    if a == [] {
      assert a + b == b;
    } else {
      assert (a + b)[1..] == a[1..] + b;
      StripConcat(if a[0] == '"' then !q else q, a[1..], b);
    }
  }

  // ---------- Levels in a printed document ----------

  /** Quotes and brackets close again, and no part of the text from its start on leaves 0 to n open. */
  ghost predicate Even(k: Kind, s: text, n: int) {
    && !Quoting(false, s) && Level(k, false, s) == 0
    && forall i :: 0 <= i <= |s| ==> 0 <= Level(k, false, s[..i]) <= n
  }

  lemma EvenConcat(k: Kind, a: text, b: text, n: int)
    requires Even(k, a, n) && Even(k, b, n)
    ensures Even(k, a + b, n)
  {
    hide Level, Quoting;
    LevelConcat(k, false, a, b);
    forall i | 0 <= i <= |a + b|
      ensures 0 <= Level(k, false, (a + b)[..i]) <= n
    {
      if i <= |a| {
        assert (a + b)[..i] == a[..i];
      } else {
        assert (a + b)[..i] == a + b[..i - |a|];
        LevelConcat(k, false, a, b[..i - |a|]);
      }
    }
  }

  lemma EvenMore(k: Kind, s: text, n: int, m: int)
    requires Even(k, s, n) && n <= m
    ensures Even(k, s, m)
  {
    hide Level, Quoting;
  }

  /** Inside a pair of brackets the level is never back at zero. */
  lemma Enclosed(k: Kind, s: text, n: int)
    requires Even(k, s, n)
    ensures var all := [Open(k)] + s + [Close(k)];
            Even(k, all, n + 1) && forall i :: 0 < i < |all| ==> Level(k, false, all[..i]) > 0
  {
    hide Level, Quoting;
    var all := [Open(k)] + s + [Close(k)];
    OneLevel(k, Open(k));
    OneLevel(k, Close(k));
    assert all == [Open(k)] + (s + [Close(k)]);
    LevelConcat(k, false, [Open(k)], s + [Close(k)]);
    LevelConcat(k, false, s, [Close(k)]);
    forall i | 0 <= i <= |all|
      ensures 0 <= Level(k, false, all[..i]) <= n + 1
      ensures 0 < i < |all| ==> Level(k, false, all[..i]) > 0
    {
      if i == 0 {
        NoLevel(k, all[..i]);
        assert 0 <= Level(k, false, s[..0]) <= n;
      } else if i < |all| {
        assert all[..i] == [Open(k)] + s[..i - 1];
        LevelConcat(k, false, [Open(k)], s[..i - 1]);
      } else {
        assert all[..i] == all;
        assert 0 <= Level(k, false, s[..0]) <= n;
      }
    }
  }

  lemma OneLevel(k: Kind, c: octet)
    ensures Quoting(false, [c]) == (c == '"') && Level(k, false, [c]) == Weight(k, c)
    ensures Level(k, false, [c][..0]) == 0 && [c][..1] == [c]
  {
    assert [c][1..] == [] && [c][..0] == [];
  }

  lemma NoLevel(k: Kind, s: text)
    requires s == []
    ensures Level(k, false, s) == 0
  {
  }

  /** A character that is neither a quote nor a bracket of this kind. */
  lemma NeutralEven(k: Kind, c: octet)
    requires c != '"' && c != Open(k) && c != Close(k)
    ensures Even(k, [c], 0)
  {
    hide Level, Quoting;
    OneLevel(k, c);
    forall i | 0 <= i <= 1
      ensures Level(k, false, [c][..i]) == 0
    {
    }
  }

  lemma EmptyEven(k: Kind)
    ensures Even(k, [], 0)
  {
  }

  lemma {:induction false} TokenEven(k: Kind, s: text)
    requires forall c :: c in s ==> !Structural(c)
    ensures Even(k, s, 0)
    decreases |s|
  {
    hide Level, Quoting;
    if s == [] {
      EmptyEven(k);
    } else {
      assert s[0] in s;
      NeutralEven(k, s[0]);
      TokenEven(k, s[1..]);
      assert s == [s[0]] + s[1..];
      EvenConcat(k, [s[0]], s[1..], 0);
    }
  }

  /** In quotes nothing counts. */
  lemma {:induction false} InQuotes(k: Kind, s: text)
    requires '"' !in s
    ensures Quoting(true, s) && Level(k, true, s) == 0
    decreases |s|
  {
    if s != [] {
      InQuotes(k, s[1..]);
    }
  }

  lemma QuotedEven(k: Kind, s: text)
    requires Quotable(s)
    ensures Even(k, ['"'] + s + ['"'], 0)
  {
    hide Level, Quoting;
    var all := ['"'] + s + ['"'];
    assert all == ['"'] + (s + ['"']);
    OneLevel(k, '"');
    QuoteCloses(k);
    InQuotes(k, s);
    LevelConcat(k, false, ['"'], s + ['"']);
    LevelConcat(k, true, s, ['"']);
    forall i | 0 <= i <= |all|
      ensures Level(k, false, all[..i]) == 0
    {
      if i == 0 {
        NoLevel(k, all[..i]);
      } else if i < |all| {
        assert all[..i] == ['"'] + s[..i - 1];
        InQuotes(k, s[..i - 1]);
        LevelConcat(k, false, ['"'], s[..i - 1]);
      } else {
        assert all[..i] == all;
      }
    }
  }

  lemma QuoteCloses(k: Kind)
    ensures !Quoting(true, ['"']) && Level(k, true, ['"']) == 0
  {
    assert ['"'][1..] == [];
  }

  /** The pair of brackets around something, of either kind. */
  lemma BracketsEven(k: Kind, j: Kind, s: text, n: int)
    requires Even(k, s, n) && n >= 0
    ensures Even(k, [Open(j)] + s + [Close(j)], n + 1)
  {
    hide Level, Quoting;
    if j == k {
      Enclosed(k, s, n);
    } else {
      NeutralEven(k, Open(j));
      NeutralEven(k, Close(j));
      EvenMore(k, [Open(j)], 0, n + 1);
      EvenMore(k, [Close(j)], 0, n + 1);
      EvenMore(k, s, n, n + 1);
      EvenConcat(k, [Open(j)], s, n + 1);
      EvenConcat(k, [Open(j)] + s, [Close(j)], n + 1);
    }
  }

  /** No more than this many brackets can be open within an object at depth d. */
  function Limit(d: nat): int {
    2 * (MAX_DEPTH - d) + 1
  }

  lemma {:induction false} MembersEven(k: Kind, ms: Members, d: nat, valueSize: nat)
    requires d < MAX_DEPTH && FitMembers(ms, d, valueSize)
    ensures Even(k, PrintMembers(ms), Limit(d))
    decreases ms
  {
    hide Even, FitValue, PrintMember;
    if ms.Member? {
      MemberEven(k, ms.key, ms.value, d, valueSize);
      if ms.rest.Member? {
        MembersEven(k, ms.rest, d, valueSize);
        CommaBetween(k, PrintMember(ms.key, ms.value), PrintMembers(ms.rest), Limit(d));
      }
    } else {
      EmptyEven(k);
      EvenMore(k, [], 0, Limit(d));
    }
  }

  lemma CommaBetween(k: Kind, a: text, b: text, n: int)
    requires Even(k, a, n) && Even(k, b, n) && n >= 0
    ensures Even(k, a + [','] + b, n)
  {
    hide Even;
    NeutralEven(k, ',');
    EvenMore(k, [','], 0, n);
    EvenConcat(k, a, [','], n);
    EvenConcat(k, a + [','], b, n);
  }

  lemma {:induction false} MemberEven(k: Kind, key: text, v: Value, d: nat, valueSize: nat)
    requires d < MAX_DEPTH && Quotable(key) && FitValue(v, d, valueSize)
    ensures Even(k, PrintMember(key, v), Limit(d))
    decreases v, 1
  {
    hide Even, FitValue, PrintValue;
    var n, quoted := Limit(d), ['"'] + key + ['"'];
    ValueEven(k, v, d, valueSize);
    QuotedEven(k, key);
    NeutralEven(k, ':');
    EvenMore(k, quoted, 0, n);
    EvenMore(k, [':'], 0, n);
    EvenConcat(k, quoted, [':'], n);
    EvenConcat(k, quoted + [':'], PrintValue(v), n);
  }

  lemma {:induction false} ValueEven(k: Kind, v: Value, d: nat, valueSize: nat)
    requires d < MAX_DEPTH && FitValue(v, d, valueSize)
    ensures Even(k, PrintValue(v), Limit(d))
    decreases v, 0
  {
    hide Even;
    match v
    case Quote(s) =>
      QuotedEven(k, s);
      EvenMore(k, PrintValue(v), 0, Limit(d));
    case Bare(s) =>
      TokenEven(k, s);
      EvenMore(k, PrintValue(v), 0, Limit(d));
    case Sub(o) =>
      ObjectEven(k, o, d + 1, valueSize);
      EvenMore(k, PrintValue(v), Limit(d + 1) + 1, Limit(d));
    case Items(os) =>
      if os.MoreObjects? {
        ObjectsEven(k, os, d + 1, valueSize);
      } else {
        EmptyEven(k);
        EvenMore(k, [], 0, Limit(d + 1) + 1);
      }
      BracketsEven(k, Brackets, PrintObjects(os), Limit(d + 1) + 1);
  }

  lemma {:induction false} ObjectEven(k: Kind, o: Object, d: nat, valueSize: nat)
    requires FitObject(o, d, valueSize)
    ensures Even(k, PrintObject(o), Limit(d) + 1)
    decreases o
  {
    hide Even;
    MembersEven(k, o.members, d, valueSize);
    BracketsEven(k, Braces, PrintMembers(o.members), Limit(d));
  }

  lemma {:induction false} ObjectsEven(k: Kind, os: Objects, d: nat, valueSize: nat)
    requires os.MoreObjects? && FitObjects(os, d, valueSize)
    ensures Even(k, PrintObjects(os), Limit(d) + 1)
    decreases os
  {
    hide Even, FitMembers, PrintObject;
    ObjectEven(k, os.o, d, valueSize);
    if os.rest.MoreObjects? {
      ObjectsEven(k, os.rest, d, valueSize);
      CommaBetween(k, PrintObject(os.o), PrintObjects(os.rest), Limit(d) + 1);
    }
  }

  // ---------- The reader ----------

  lemma MatchKeepsLevels(e: Env)
    requires e.Wf()
    ensures var m := MatchPairs(e);
            m.depth == e.depth && m.arrayDepth == e.arrayDepth && m.inQuotes == e.inQuotes && m.options == e.options
            && m.httpBody == e.httpBody
  {
    hide CString, TouchAll, CountHits, NoteErrors, Clear, Count;
  }

  lemma PlainLevels(e: Env, c: octet)
    requires e.Wf() && !e.inQuotes && c != '}'
    requires c == '{' ==> e.depth + 1 < MAX_DEPTH
    requires !Structural(c) && !Blank(c) && e.colon ==> e.writeIdx + 1 < |e.value|
    ensures var r := Plain(e, c);
            && r.options == e.options && r.httpBody == e.httpBody && r.inQuotes == (c == '"')
            && r.arrayDepth == (e.arrayDepth + Weight(Brackets, c)) % 0x1_0000_0000
            && r.depth == e.depth + Weight(Braces, c)
  {
    hide MatchPairs, ForgetAll;
    MatchKeepsLevels(e);
  }

  lemma ClosedLevels(e: Env)
    requires e.Wf() && !e.inQuotes
    ensures var r := Closed(e);
            && r.options == e.options && r.httpBody == e.httpBody && !r.inQuotes && r.arrayDepth == e.arrayDepth
            && r.depth == if e.depth > 0 then e.depth - 1 else 0
  {
    hide MatchPairs, Count;
    MatchKeepsLevels(e);
  }

  /** One character moves the depth of arrays, and that of objects, which does not fall below zero. */
  lemma LevelStep(e: Env, c: octet)
    requires e.Wf() && e.Listening() && Safe(e, c)
    ensures var r := Feed(e, c);
            var w, v := if e.inQuotes then 0 else Weight(Brackets, c), if e.inQuotes then 0 else Weight(Braces, c);
            && r.Listening() && r.inQuotes == (if c == '"' then !e.inQuotes else e.inQuotes)
            && r.arrayDepth == (e.arrayDepth + w) % 0x1_0000_0000
            && r.depth == if e.depth + v >= 0 then e.depth + v else 0
  {
    hide Closed, Plain, Env.Wf;
    var f := Filter(e, c);
    if !f.inQuotes {
      if c == '}' {
        ClosedLevels(f);
      } else {
        PlainLevels(f, c);
      }
    }
  }

  /** Over a text, as long as no brace closes that was not opened. */
  lemma {:induction false} ReaderLevels(e: Env, s: text)
    requires e.Wf() && e.Listening() && SafeAll(e, s)
    requires forall i :: 0 <= i <= |s| ==> e.depth + Level(Braces, e.inQuotes, s[..i]) >= 0
    ensures var r := Fold(e, s).env;
            && r.arrayDepth == (e.arrayDepth + Level(Brackets, e.inQuotes, s)) % 0x1_0000_0000
            && r.depth == e.depth + Level(Braces, e.inQuotes, s)
    decreases |s|
  {
    hide Feed, Safe, Ends, Env.Wf, Env.Listening, Weight;
    if s != [] {
      LevelStep(e, s[0]);
      var q := if s[0] == '"' then !e.inQuotes else e.inQuotes;
      var w := if e.inQuotes then 0 else Weight(Braces, s[0]);
      forall i | 0 <= i <= |s| - 1
        ensures e.depth + w + Level(Braces, q, s[1..][..i]) >= 0
      {
        assert s[..i + 1][1..] == s[1..][..i];
        assert Level(Braces, e.inQuotes, s[..i + 1]) == w + Level(Braces, q, s[..i + 1][1..]);
      }
      NoLevel(Braces, s[1..][..0]);
      assert e.depth + w >= 0;
      ReaderLevels(Feed(e, s[0]), s[1..]);
      ModOnward(e.arrayDepth, if e.inQuotes then 0 else Weight(Brackets, s[0]), Level(Brackets, q, s[1..]));
    }
  }

  lemma ModOnward(x: int, a: int, b: int)
    ensures ((x + a) % 0x1_0000_0000 + b) % 0x1_0000_0000 == (x + a + b) % 0x1_0000_0000
  {
  }

  /** What a document begins and ends with. */
  function KindOf(v: Value): Kind {
    if v.Sub? then Braces else Brackets
  }

  lemma DocumentEven(v: Value, valueSize: nat)
    requires FitDocument(v, valueSize)
    ensures Even(Braces, PrintValue(v), Limit(0)) && Even(Brackets, PrintValue(v), Limit(0))
    ensures forall i :: 0 < i < |PrintValue(v)| ==> Level(KindOf(v), false, PrintValue(v)[..i]) > 0
  {
    hide Even, Level, FitObject, FitObjects, PrintMembers, PrintObjects;
    ValueEven(Braces, v, 0, valueSize);
    ValueEven(Brackets, v, 0, valueSize);
    if v.Sub? {
      ObjectParts(v.o, valueSize);
      MembersEven(Braces, v.o.members, 1, valueSize);
      Enclosed(Braces, PrintMembers(v.o.members), Limit(1));
    } else {
      ObjectsEven(Brackets, v.os, 1, valueSize);
      Enclosed(Brackets, PrintObjects(v.os), Limit(1) + 1);
    }
  }

  lemma ObjectParts(o: Object, valueSize: nat)
    requires FitObject(o, 1, valueSize)
    ensures FitMembers(o.members, 1, valueSize)
  {
  }

  /** After the chunks `a` of a stream that is a printed document with blanks between its tokens, the depth
      the callers look at is above zero exactly if part of the document has come and part is missing: that
      of objects where the document is an object, that of arrays where it is an array. At the end both are
      zero. */
  lemma ReadUntilComplete(e: Env, v: Value, a: seq<text>, b: seq<text>)
    requires Fresh(e) && e.arrayDepth == 0 && FitDocument(v, |e.value|)
    requires Strip(false, Join(a) + Join(b)) == PrintValue(v)
    ensures SafeAll(e, Join(a))
    ensures var r, read := DriveAll(e, a).env, Strip(false, Join(a));
            && ((if v.Sub? then r.depth > 0 else r.arrayDepth > 0) <==> read != [] && read != PrintValue(v))
            && (read == PrintValue(v) ==> r.depth == 0 && r.arrayDepth == 0)
  {
    hide Env.Wf, Env.Listening, Level, Even, PrintValue, FitDocument, DriveAll, SafeAll, Fold, Strip, CString, Join;
    var s, all := Join(a), Join(a) + Join(b);
    var d := DocumentRead(e, v);
    FreshAlike(e);
    StripIsRead(e, e, all);
    FoldConcat(e, s, Join(b));
    DriveAllIsFold(e, a);
    DocumentEven(v, |e.value|);
    forall i | 0 <= i <= |s|
      ensures e.depth + Level(Braces, e.inQuotes, s[..i]) >= 0
    {
      assert all == s[..i] + (s[i..] + Join(b));
      PartLevels(Braces, v, |e.value|, s[..i], s[i..] + Join(b));
    }
    ReaderLevels(e, s);
    PartLevels(Braces, v, |e.value|, s, Join(b));
    PartLevels(Brackets, v, |e.value|, s, Join(b));
  }

  /** The levels after the first part of a stream. */
  lemma PartLevels(k: Kind, v: Value, valueSize: nat, a: text, b: text)
    requires FitDocument(v, valueSize) && Strip(false, a + b) == PrintValue(v)
    ensures var read := Strip(false, a);
            && 0 <= Level(k, false, a) <= Limit(0)
            && (read == [] || read == PrintValue(v) ==> Level(k, false, a) == 0)
            && (k == KindOf(v) && read != [] && read != PrintValue(v) ==> Level(k, false, a) > 0)
  {
    hide Level, PrintValue, FitDocument, Quoting, Strip;
    DocumentEven(v, valueSize);
    StripConcat(false, a, b);
    LevelStrip(k, false, a);
    var read, all := Strip(false, a), PrintValue(v);
    assert read == all[..|read|];
    NoLevel(k, all[..0]);
    assert all[..|all|] == all;
  }
}
