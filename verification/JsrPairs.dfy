/** What one pair of interest goes through while a document of any depth is read: the objects that open
    and the strings that are matched, in the order they come. */
module JsrPairs {
  import opened Jsr
  import opened JsrDocument
  import opened JsrTheorems

  /** An object opens at a depth, or a key and a value are matched there. */
  datatype Moment = Opens(depth: uint8) | Offers(key: text, value: text, depth: uint8)

  // ---------- The moments of a document ----------

  function ObjectMoments(u: Setup, k: text, o: Object, d: nat): seq<Moment>
    requires FitObject(o, d, u.valueSize)
    decreases o, 1
  {
    [Opens(d)] + if o.members.Member? then MembersMoments(u, o.members, d) else LeafMoments(k, [], d)
  }

  function LeafMoments(k: text, c: text, d: nat): seq<Moment>
    requires d < MAX_DEPTH
  {
    if k == [] then [] else [Offers(k, c, d)]
  }

  function MembersMoments(u: Setup, ms: Members, d: nat): seq<Moment>
    requires d < MAX_DEPTH && FitMembers(ms, d, u.valueSize)
    decreases ms
  {
    match ms
    case NoMembers => []
    case Member(k, v, rest) => ValueMoments(u, k, v, d) + MembersMoments(u, rest, d)
  }

  function ValueMoments(u: Setup, k: text, v: Value, d: nat): seq<Moment>
    requires d < MAX_DEPTH && FitValue(v, d, u.valueSize)
    decreases v
  {
    match v
    case Sub(o) => ObjectMoments(u, Pending(u, k), o, d + 1)
    case Items(MoreObjects(o, rest)) => ObjectsMoments(u, Pending(u, k), v.os, d + 1)
    case _ => LeafMoments(k, Content(v), d)
  }

  function ObjectsMoments(u: Setup, k: text, os: Objects, d: nat): seq<Moment>
    requires FitObjects(os, d, u.valueSize)
    decreases os
  {
    match os
    case NoObjects => []
    case MoreObjects(o, rest) => ObjectMoments(u, k, o, d) + ObjectsMoments(u, [], rest, d)
  }

  function DocumentMoments(u: Setup, v: Value): seq<Moment>
    requires FitDocument(v, u.valueSize)
  {
    if v.Sub? then ObjectMoments(u, [], v.o, 1) else ObjectsMoments(u, [], v.os, 1)
  }

  // ---------- One pair through them ----------

  function Next(u: Setup, p: Pair, m: Moment): Pair {
    match m
    case Opens(d) => Forget(p, d)
    case Offers(k, v, d) => Touch(p, Cut(k, u.keySize), Cut(v, u.valueSize), d)
  }

  function Through(u: Setup, p: Pair, ms: seq<Moment>): Pair {
    if ms == [] then p else Next(u, Through(u, p, ms[..|ms| - 1]), ms[|ms| - 1])
  }

  lemma {:induction false} ThroughConcat(u: Setup, p: Pair, a: seq<Moment>, b: seq<Moment>)
    ensures Through(u, p, a + b) == Through(u, Through(u, p, a), b)
    decreases |b|
  {
    hide Next;
    if b == [] {
      assert a + b == a;
    } else {
      assert (a + b)[..|a + b| - 1] == a + b[..|b| - 1];
      ThroughConcat(u, p, a, b[..|b| - 1]);
    }
  }

  lemma ThroughOne(u: Setup, p: Pair, m: Moment)
    ensures Through(u, p, [m]) == Next(u, p, m)
  {
    assert [m][..0] == [];
  }

  /** Every pair goes through the moments on its own. */
  ghost predicate Follow(u: Setup, ps: seq<Pair>, ms: seq<Moment>, qs: seq<Pair>) {
    |qs| == |ps| && forall i :: 0 <= i < |ps| ==> qs[i] == Through(u, ps[i], ms)
  }

  lemma FollowThen(u: Setup, ps: seq<Pair>, a: seq<Moment>, qs: seq<Pair>, b: seq<Moment>, rs: seq<Pair>)
    requires Follow(u, ps, a, qs) && Follow(u, qs, b, rs)
    ensures Follow(u, ps, a + b, rs)
  {
    forall i | 0 <= i < |ps|
      ensures rs[i] == Through(u, ps[i], a + b)
    {
      ThroughConcat(u, ps[i], a, b);
    }
  }

  lemma FollowNothing(u: Setup, ps: seq<Pair>)
    ensures Follow(u, ps, [], ps)
  {}

  lemma LeafFollows(u: Setup, ps: seq<Pair>, k: text, c: text, d: nat)
    requires FullKeys(u) && d < MAX_DEPTH && (k == [] ==> c == [])
    ensures Follow(u, ps, LeafMoments(k, c, d), MeanLeaf(u, ps, k, c, d).pairs)
  {
    hide Touch, Cut, CountHits;
    CutKey(u, k);
    forall i | 0 <= i < |ps|
      ensures MeanLeaf(u, ps, k, c, d).pairs[i] == Through(u, ps[i], LeafMoments(k, c, d))
    {
      if k != [] {
        ThroughOne(u, ps[i], Offers(k, c, d));
      }
    }
  }

  lemma OpenFollows(u: Setup, ps: seq<Pair>, d: uint8)
    ensures Follow(u, ps, [Opens(d)], ForgetAll(ps, d))
  {
    hide Forget;
    forall i | 0 <= i < |ps|
      ensures ForgetAll(ps, d)[i] == Through(u, ps[i], [Opens(d)])
    {
      ThroughOne(u, ps[i], Opens(d));
    }
  }

  lemma {:induction false} ObjectFollows(u: Setup, ps: seq<Pair>, k: text, o: Object, d: nat)
    requires FullKeys(u) && FitObject(o, d, u.valueSize)
    ensures Follow(u, ps, ObjectMoments(u, k, o, d), MeanObject(u, ps, k, o, d).pairs)
    decreases o, 1
  {
    hide Follow, MeanLeaf, LeafMoments;
    var qs := ForgetAll(ps, d);
    OpenFollows(u, ps, d);
    if o.members.Member? {
      MembersFollow(u, qs, o.members, d);
      FollowThen(u, ps, [Opens(d)], qs, MembersMoments(u, o.members, d), MeanMembers(u, qs, o.members, d).pairs);
    } else {
      LeafFollows(u, qs, k, [], d);
      FollowThen(u, ps, [Opens(d)], qs, LeafMoments(k, [], d), MeanLeaf(u, qs, k, [], d).pairs);
    }
  }

  lemma {:induction false} MembersFollow(u: Setup, ps: seq<Pair>, ms: Members, d: nat)
    requires FullKeys(u) && d < MAX_DEPTH && FitMembers(ms, d, u.valueSize)
    ensures Follow(u, ps, MembersMoments(u, ms, d), MeanMembers(u, ps, ms, d).pairs)
    decreases ms
  {
    hide Follow, MeanMember, ValueMoments;
    if ms.Member? {
      var a := MeanMember(u, ps, ms.key, ms.value, d);
      ValueFollows(u, ps, ms.key, ms.value, d);
      MembersFollow(u, a.pairs, ms.rest, d);
      FollowThen(u, ps, ValueMoments(u, ms.key, ms.value, d), a.pairs, MembersMoments(u, ms.rest, d),
                 MeanMembers(u, a.pairs, ms.rest, d).pairs);
    } else {
      FollowNothing(u, ps);
    }
  }

  lemma {:induction false} ValueFollows(u: Setup, ps: seq<Pair>, k: text, v: Value, d: nat)
    requires FullKeys(u) && d < MAX_DEPTH && k != [] && FitValue(v, d, u.valueSize)
    ensures Follow(u, ps, ValueMoments(u, k, v, d), MeanMember(u, ps, k, v, d).pairs)
    decreases v
  {
    hide Follow, MeanObject, MeanObjects, MeanLeaf, ObjectMoments, ObjectsMoments, LeafMoments;
    if v.Sub? {
      ObjectFollows(u, ps, Pending(u, k), v.o, d + 1);
    } else if v.Items? && v.os.MoreObjects? {
      ObjectsFollow(u, ps, Pending(u, k), v.os, d + 1);
    } else {
      LeafFollows(u, ps, k, Content(v), d);
    }
  }

  lemma {:induction false} ObjectsFollow(u: Setup, ps: seq<Pair>, k: text, os: Objects, d: nat)
    requires FullKeys(u) && FitObjects(os, d, u.valueSize)
    ensures Follow(u, ps, ObjectsMoments(u, k, os, d), MeanObjects(u, ps, k, os, d).pairs)
    decreases os
  {
    hide Follow, MeanObject, ObjectMoments;
    if os.MoreObjects? {
      var a := MeanObject(u, ps, k, os.o, d);
      ObjectFollows(u, ps, k, os.o, d);
      ObjectsFollow(u, a.pairs, [], os.rest, d);
      FollowThen(u, ps, ObjectMoments(u, k, os.o, d), a.pairs, ObjectsMoments(u, [], os.rest, d),
                 MeanObjects(u, a.pairs, [], os.rest, d).pairs);
    } else {
      FollowNothing(u, ps);
    }
  }

  /** A document read in chunks takes every pair of interest, of whatever kind, through its moments. */
  lemma PairsFollow(e: Env, v: Value, chunks: seq<text>)
    requires Fresh(e) && FitDocument(v, |e.value|) && Strip(false, Join(chunks)) == PrintValue(v)
    ensures SafeAll(e, Join(chunks))
    ensures Follow(SetupOf(e), e.pairs, DocumentMoments(SetupOf(e), v), DriveAll(e, chunks).env.pairs)
  {
    hide CString, Env.Wf, Env.Listening, DriveAll, Follow, MeanObject, MeanObjects, ObjectMoments, ObjectsMoments;
    PrintThenRead(e, v, chunks);
    if v.Sub? {
      ObjectFollows(SetupOf(e), e.pairs, [], v.o, 1);
    } else {
      ObjectsFollow(SetupOf(e), e.pairs, [], v.os, 1);
    }
  }

  // ---------- What it holds at the end ----------

  /** A pair with one field given and the other captured. */
  predicate Captures(p: Pair) {
    p.givesKey != p.givesValue
  }

  /** What it captures, and whether a moment offers it something to capture. */
  function Captured(p: Pair): text {
    if p.givesKey then p.value else p.key
  }

  function Recaptured(p: Pair, s: text): Pair {
    if p.givesKey then p.(value := s) else p.(key := s)
  }

  /** The field a pair gives is what was read, cut to its buffer. */
  predicate IsHit(u: Setup, p: Pair, m: Moment) {
    && m.Offers?
    && (p.givesKey ==> CString(p.key) == Cut(m.key, u.keySize))
    && (p.givesValue ==> CString(p.value) == Cut(m.value, u.valueSize))
  }

  /** What a hit offers to the field that is captured. */
  function Offered(u: Setup, p: Pair, m: Moment): text
    requires m.Offers?
  {
    if p.givesKey then Cut(m.value, u.valueSize) else Cut(m.key, u.keySize)
  }

  /** The pair as it was, but for its captured field and depth. */
  predicate SameAim(p: Pair, q: Pair) {
    Captures(q) && |Captured(q)| == |Captured(p)| && Recaptured(q, Captured(p)).(depth := p.depth) == p
  }

  lemma AimHits(u: Setup, p: Pair, q: Pair, m: Moment)
    requires Captures(p) && SameAim(p, q)
    ensures IsHit(u, p, m) == IsHit(u, q, m) && (m.Offers? ==> Offered(u, p, m) == Offered(u, q, m))
  {}

  lemma {:induction false} AimStays(u: Setup, p: Pair, ms: seq<Moment>)
    requires Captures(p)
    ensures SameAim(p, Through(u, p, ms))
    decreases |ms|
  {
    hide CString, CopyInto, Clear, Cut;
    if ms != [] {
      AimStays(u, p, ms[..|ms| - 1]);
    }
  }

  /** Without a further hit it keeps what it holds, unless it is transient and an object opens at the
      depth where it was hit. */
  lemma {:induction false} KeepsUnlessOpened(u: Setup, p: Pair, ms: seq<Moment>)
    requires Captures(p) && forall m :: m in ms ==> !IsHit(u, p, m)
    ensures Through(u, p, ms) == if p.transient && Opens(p.depth) in ms then Recaptured(p, Clear(Captured(p))) else p
    decreases |ms|
  {
    hide CString, Cut;
    if ms != [] {
      var k := |ms| - 1;
      assert ms == ms[..k] + [ms[k]] && forall m :: m in ms[..k] ==> m in ms;
      KeepsUnlessOpened(u, p, ms[..k]);
      var q := Through(u, p, ms[..k]);
      AimStays(u, p, ms[..k]);
      AimHits(u, p, q, ms[k]);
      ClearTwice(Captured(p));
    }
  }

  lemma ClearTwice(buffer: text)
    ensures Clear(Clear(buffer)) == Clear(buffer) && CString(Clear(buffer)) == []
  {}

  /** After its last hit a pair that gives one field holds the other as it was offered then, cut to its
      buffer; a transient one holds nothing if an object has opened since at the depth of that hit. */
  lemma LastHitIsHeld(u: Setup, p: Pair, a: seq<Moment>, m: Moment, b: seq<Moment>)
    requires Captures(p) && IsHit(u, p, m) && forall x :: x in b ==> !IsHit(u, p, x)
    ensures var q, s := Through(u, p, a + [m] + b), CopyInto(Captured(p), Offered(u, p, m));
            && q.depth == m.depth && SameAim(p, q)
            && (if p.transient && Opens(m.depth) in b then CString(Captured(q)) == [] else Captured(q) == s)
  {
    hide CString, CopyInto, Cut, Hits, Clear;
    var before := Through(u, p, a);
    AimStays(u, p, a);
    AimStays(u, p, a + [m] + b);
    AimHits(u, p, before, m);
    ThroughConcat(u, p, a, [m]);
    ThroughConcat(u, p, a + [m], b);
    ThroughOne(u, before, m);
    var hit := Next(u, before, m);
    HitCaptures(u, before, m);
    CopyBySize(Captured(before), Captured(p), Offered(u, p, m));
    AimStays(u, p, a + [m]);
    forall x | x in b
      ensures !IsHit(u, hit, x)
    {
      AimHits(u, p, hit, x);
    }
    KeepsUnlessOpened(u, hit, b);
    ClearTwice(Captured(hit));
  }

  lemma HitCaptures(u: Setup, p: Pair, m: Moment)
    requires Captures(p) && IsHit(u, p, m)
    ensures Next(u, p, m) == Recaptured(p, CopyInto(Captured(p), Offered(u, p, m))).(depth := m.depth)
  {
    hide CString, CopyInto, Cut;
  }

  lemma CopyBySize(a: text, b: text, s: text)
    requires |a| == |b|
    ensures CopyInto(a, s) == CopyInto(b, s)
  {}
}
