/** Objects without members. The reader matches whatever strings are waiting when an object closes, so
    an empty object takes the key it stands behind for a member of its own; and exactly when that makes
    a difference. */
module JsrEmpty {
  import opened Jsr
  import opened JsrDocument
  import opened JsrTheorems

  /** What a document means, other than to the reader: its empty objects hold nothing. */
  function Meant(u: Setup): Setup {
    u.(takesKey := false)
  }

  // ---------- One empty object ----------

  /** The reader at an empty object behind a key: the reports, the pairs, and the count passed on. */
  lemma EmptyObjectTakesKey(e: Env, base: Env, d: nat, ps: seq<Pair>, n: nat, k: text) returns (r: Env)
    requires Tracks(e, base, d, ps, n) && d + 1 < MAX_DEPTH && CString(e.value) == [] && CString(e.key) == Cut(k, |e.key|)
    ensures var u, o := SetupOf(base), Object(NoMembers);
            var m := MeanObject(u, ps, k, o, d + 1);
            && Leads(e, ['{'] + ['}'], Outcome(r, m.events)) && r.pairs == m.pairs
            && m.pairs == MeanLeaf(u, ForgetAll(ps, d + 1), k, [], d + 1).pairs
            && m.count == MeanLeaf(u, ForgetAll(ps, d + 1), k, [], d + 1).count
            && Tracks(r, base, d, m.pairs, n + Passed(u, m).count)
  {
    hide CString, Cut, SafeAll, Fold, MeanLeaf, Leads;
    r := ObjectRead(e, base, k, Object(NoMembers), d + 1, ps, n);
    assert PrintObject(Object(NoMembers)) == ['{'] + ['}'];
  }

  /** No pair of interest matches this key with an empty value: each gives something else. */
  predicate Free(ps: seq<Pair>, k: text) {
    forall p :: p in ps ==> (p.givesKey && CString(p.key) != k) || (p.givesValue && CString(p.value) != [])
  }

  lemma FreeExactly(ps: seq<Pair>, k: text)
    ensures Free(ps, k) <==> CountHits(ps, k, []) == 0
  {
    hide CString, CountHits;
    if CountHits(ps, k, []) == 0 {
      forall p | p in ps
        ensures !Hits(p, k, [])
      {
        var i :| 0 <= i < |ps| && ps[i] == p;
        if Hits(p, k, []) {
          HitsAreCounted(ps, k, [], i);
        }
      }
    } else {
      SomeHit(ps, k, []);
    }
  }

  lemma {:induction false} SomeHit(ps: seq<Pair>, k: text, v: text)
    requires CountHits(ps, k, v) > 0
    ensures exists p :: p in ps && Hits(p, k, v)
    decreases |ps|
  {
    hide Hits;
    if !Hits(ps[|ps| - 1], k, v) {
      SomeHit(ps[..|ps| - 1], k, v);
    }
  }

  /** It reads as empty if and only if no pair of interest matches the key with an empty value. */
  lemma EmptyObjectExactly(u: Setup, ps: seq<Pair>, k: text, d: nat)
    requires FullKeys(u) && k != [] && d < MAX_DEPTH
    ensures MeanObject(u, ps, k, Object(NoMembers), d) == MeanObject(u, ps, [], Object(NoMembers), d)
            <==> Free(ps, Cut(k, u.keySize))
  {
    hide ForgetAll, Cut, TouchAll, Free;
    CutKey(u, k);
    CutKey(u, []);
    var qs := ForgetAll(ps, d);
    FreeExactly(ps, Cut(k, u.keySize));
    ForgottenCount(ps, d, Cut(k, u.keySize));
    if CountHits(qs, Cut(k, u.keySize), []) == 0 {
      NothingTouched(qs, Cut(k, u.keySize), [], d);
    }
  }

  lemma ForgottenCount(ps: seq<Pair>, d: uint8, k: text)
    ensures CountHits(ForgetAll(ps, d), k, []) == CountHits(ps, k, [])
  {
    hide ForgetAll;
    CapturesKeepGivens(ps, [], [], d);
    GivensCount(ps, ForgetAll(ps, d), k, []);
  }

  lemma {:induction false} GivensCount(ps: seq<Pair>, qs: seq<Pair>, k: text, v: text)
    requires SameGivens(ps, qs)
    ensures CountHits(ps, k, v) == CountHits(qs, k, v)
    decreases |ps|
  {
    if ps != [] {
      var n := |ps| - 1;
      assert SameGiven(ps[n], qs[n]);
      GivensCount(ps[..n], qs[..n], k, v);
    }
  }

  lemma {:induction false} NothingTouched(ps: seq<Pair>, k: text, v: text, d: uint8)
    requires CountHits(ps, k, v) == 0
    ensures TouchAll(ps, k, v, d) == ps
  {
    hide Hits, CountHits;
    forall i | 0 <= i < |ps|
      ensures !Hits(ps[i], k, v)
    {
      if Hits(ps[i], k, v) {
        HitsAreCounted(ps, k, v, i);
      }
    }
  }

  lemma {:induction false} HitsAreCounted(ps: seq<Pair>, k: text, v: text, i: nat)
    requires i < |ps| && Hits(ps[i], k, v)
    ensures CountHits(ps, k, v) > 0
    decreases |ps|
  {
    hide Hits;
    if i < |ps| - 1 {
      HitsAreCounted(ps[..|ps| - 1], k, v, i);
    }
  }

  lemma {:induction false} FewHits(ps: seq<Pair>, k: text, v: text)
    ensures CountHits(ps, k, v) <= |ps|
    decreases |ps|
  {
    hide Hits;
    if ps != [] {
      FewHits(ps[..|ps| - 1], k, v);
    }
  }

  /** For one, a pair that gives just that key: it counts a match that is not there. */
  lemma KeyPairIsFooled(u: Setup, p: Pair, k: text, d: nat)
    requires FullKeys(u) && k != [] && d < MAX_DEPTH
    requires p.givesKey && !p.givesValue && CString(p.key) == Cut(k, u.keySize)
    ensures MeanObject(u, [p], k, Object(NoMembers), d).count == 1 && MeanObject(u, [p], [], Object(NoMembers), d).count == 0
  {
    hide CString, Cut;
    CutKey(u, k);
    CutKey(u, []);
    var q := Forget(p, d);
    assert ForgetAll([p], d) == [q] && [q][..0] == [];
    assert CountHits([], Cut(k, u.keySize), []) == 0;
  }

  // ---------- Whole documents ----------

  /** The keys that empty objects stand behind. */
  function ObjectKeys(k: text, o: Object): seq<text>
    decreases o, 1
  {
    if o.members.Member? then MembersKeys(o.members) else if k == [] then [] else [k]
  }

  function MembersKeys(ms: Members): seq<text>
    decreases ms
  {
    match ms
    case NoMembers => []
    case Member(k, v, rest) => ValueKeys(k, v) + MembersKeys(rest)
  }

  function ValueKeys(k: text, v: Value): seq<text>
    decreases v
  {
    match v
    case Sub(o) => ObjectKeys(k, o)
    case Items(os) => ObjectsKeys(k, os)
    case _ => []
  }

  function ObjectsKeys(k: text, os: Objects): seq<text>
    decreases os
  {
    match os
    case NoObjects => []
    case MoreObjects(o, rest) => ObjectKeys(k, o) + ObjectsKeys([], rest)
  }

  function DocumentKeys(v: Value): seq<text> {
    ValueKeys([], v)
  }

  /** No pair of interest matches one of these keys with an empty value. */
  predicate Unclaimed(u: Setup, ps: seq<Pair>, keys: seq<text>) {
    forall k :: k in keys ==> Free(ps, Cut(k, u.keySize))
  }

  lemma {:induction false} ObjectMeant(u: Setup, start: seq<Pair>, ps: seq<Pair>, k: text, o: Object, d: nat)
    requires FullKeys(u) && u.takesKey && FitObject(o, d, u.valueSize) && SameGivens(start, ps)
    requires Unclaimed(u, start, ObjectKeys(k, o))
    ensures MeanObject(u, ps, k, o, d) == MeanObject(Meant(u), ps, [], o, d)
    decreases o, 1
  {
    hide SameGiven, TouchAll, CountHits, Cut, Forget;
    var qs := ForgetAll(ps, d);
    CapturesKeepGivens(ps, [], [], d);
    GivensThen(start, ps, qs);
    if o.members.Member? {
      MembersMeant(u, start, qs, o.members, d);
    } else {
      CutKey(u, k);
      CutKey(u, []);
      if k != [] {
        assert k in ObjectKeys(k, o);
        FreeExactly(start, Cut(k, u.keySize));
        GivensCount(start, qs, Cut(k, u.keySize), []);
        NothingTouched(qs, Cut(k, u.keySize), [], d);
      }
    }
  }

  lemma {:induction false} MembersMeant(u: Setup, start: seq<Pair>, ps: seq<Pair>, ms: Members, d: nat)
    requires FullKeys(u) && u.takesKey && d < MAX_DEPTH && FitMembers(ms, d, u.valueSize) && SameGivens(start, ps)
    requires Unclaimed(u, start, MembersKeys(ms))
    ensures MeanMembers(u, ps, ms, d) == MeanMembers(Meant(u), ps, ms, d)
    decreases ms
  {
    hide SameGiven, MeanMember, CountHits, Cut, ValueKeys, Matches;
    if ms.Member? {
      var a := MeanMember(u, ps, ms.key, ms.value, d);
      assert forall k :: k in ValueKeys(ms.key, ms.value) || k in MembersKeys(ms.rest) ==> k in MembersKeys(ms);
      ValueMeant(u, start, ps, ms.key, ms.value, d);
      MemberCount(u, ps, ms.key, ms.value, d);
      GivensThen(start, ps, a.pairs);
      MembersMeant(u, start, a.pairs, ms.rest, d);
    }
  }

  lemma {:induction false} ValueMeant(u: Setup, start: seq<Pair>, ps: seq<Pair>, k: text, v: Value, d: nat)
    requires FullKeys(u) && u.takesKey && d < MAX_DEPTH && FitValue(v, d, u.valueSize) && SameGivens(start, ps)
    requires Unclaimed(u, start, ValueKeys(k, v))
    ensures MeanMember(u, ps, k, v, d) == MeanMember(Meant(u), ps, k, v, d)
    decreases v
  {
    hide SameGiven, MeanObject, MeanObjects, MeanLeaf, Unclaimed, ObjectKeys, ObjectsKeys;
    if v.Sub? {
      ObjectMeant(u, start, ps, k, v.o, d + 1);
    } else if v.Items? && v.os.MoreObjects? {
      ObjectsMeant(u, start, ps, k, v.os, d + 1);
    } else {
      LeafIgnoresTaking(u, ps, k, Content(v), d);
    }
  }

  lemma LeafIgnoresTaking(u: Setup, ps: seq<Pair>, k: text, c: text, d: nat)
    requires d < MAX_DEPTH
    ensures MeanLeaf(u, ps, k, c, d) == MeanLeaf(Meant(u), ps, k, c, d)
  {}

  lemma {:induction false} ObjectsMeant(u: Setup, start: seq<Pair>, ps: seq<Pair>, k: text, os: Objects, d: nat)
    requires FullKeys(u) && u.takesKey && FitObjects(os, d, u.valueSize) && SameGivens(start, ps)
    requires Unclaimed(u, start, ObjectsKeys(k, os))
    ensures MeanObjects(u, ps, k, os, d) == MeanObjects(Meant(u), ps, [], os, d)
    decreases os
  {
    hide SameGiven, MeanObject, CountHits, Cut, ObjectKeys, Matches;
    if os.MoreObjects? {
      var a := MeanObject(u, ps, k, os.o, d);
      assert forall x :: x in ObjectKeys(k, os.o) || x in ObjectsKeys([], os.rest) ==> x in ObjectsKeys(k, os);
      ObjectMeant(u, start, ps, k, os.o, d);
      ObjectCount(u, ps, k, os.o, d);
      GivensThen(start, ps, a.pairs);
      ObjectsMeant(u, start, a.pairs, [], os.rest, d);
    }
  }

  lemma DocumentMeant(u: Setup, ps: seq<Pair>, v: Value)
    requires FullKeys(u) && u.takesKey && FitDocument(v, u.valueSize) && Unclaimed(u, ps, DocumentKeys(v))
    ensures MeanDocument(u, ps, v) == MeanDocument(Meant(u), ps, v)
  {
    hide MeanObject, MeanObjects, Unclaimed, SameGivens;
    GivensSelf(ps);
    if v.Sub? {
      ObjectMeant(u, ps, ps, [], v.o, 1);
    } else {
      ObjectsMeant(u, ps, ps, [], v.os, 1);
    }
  }

  // ---------- Where it makes a difference ----------

  /** How many of these keys a pair of interest matches with an empty value. */
  function Claims(u: Setup, ps: seq<Pair>, keys: seq<text>): nat {
    if keys == [] then 0
    else (if CountHits(ps, Cut(keys[0], u.keySize), []) > 0 then 1 else 0) + Claims(u, ps, keys[1..])
  }

  lemma {:induction false} ClaimsConcat(u: Setup, ps: seq<Pair>, a: seq<text>, b: seq<text>)
    ensures Claims(u, ps, a + b) == Claims(u, ps, a) + Claims(u, ps, b)
  {
    hide CountHits, Cut;
    if a == [] {
      assert a + b == b;
    } else {
      assert (a + b)[1..] == a[1..] + b;
      ClaimsConcat(u, ps, a[1..], b);
    }
  }

  lemma {:induction false} NoClaims(u: Setup, ps: seq<Pair>, keys: seq<text>)
    ensures Claims(u, ps, keys) == 0 <==> Unclaimed(u, ps, keys)
  {
    hide CountHits, Cut, Free;
    if keys != [] {
      NoClaims(u, ps, keys[1..]);
      FreeExactly(ps, Cut(keys[0], u.keySize));
      assert forall k :: k in keys <==> k == keys[0] || k in keys[1..];
    }
  }

  /** Options under which every object with a match of its own is reported. */
  predicate Telling(u: Setup) {
    !u.options.recurse && u.options.threshold == 1 && u.options.minDepth == 0 && u.takesKey
  }

  lemma {:induction false} OwnLeavesAgree(u: Setup, ms: Members)
    ensures Leaves(u, false, ms) == Leaves(Meant(u), false, ms)
    decreases ms
  {
    if ms.Member? {
      OwnLeavesAgree(u, ms.rest);
    }
  }

  lemma MatchesAgree(u: Setup, ps: seq<Pair>, leaves: seq<Leaf>)
    ensures Matches(u, ps, leaves) == Matches(Meant(u), ps, leaves)
  {
    hide CString, Cut;
    assert Matching(u, ps, leaves) == Matching(Meant(u), ps, leaves);
  }

  /** Each claimed key makes one report too many. */
  lemma {:induction false} ObjectDiffers(u: Setup, ps: seq<Pair>, k: text, o: Object, d: nat)
    requires FullKeys(u) && Telling(u) && |ps| < 256 && d > 0
    ensures ReportedIn(u, ps, k, o, d) == ReportedIn(Meant(u), ps, [], o, d) + Claims(u, ps, ObjectKeys(k, o))
    decreases o, 1
  {
    hide CountHits, Cut, Matches;
    if o.members.Member? {
      MembersDiffer(u, ps, o.members, d);
      OwnLeavesAgree(u, o.members);
      MatchesAgree(u, ps, Leaves(u, false, o.members));
    } else if k != [] {
      CutKey(u, k);
      FewHits(ps, Cut(k, u.keySize), []);
      var h := CountHits(ps, Cut(k, u.keySize), []);
      MatchesNext(u, ps, [], Leaf(k, []));
      NothingMatches(u, ps);
      NothingMatches(Meant(u), ps);
      assert [] + [Leaf(k, [])] == [Leaf(k, [])] && [k][1..] == [];
      assert ObjectLeaves(u, false, k, o) == [Leaf(k, [])] && ObjectLeaves(Meant(u), false, [], o) == [];
      assert Matches(u, ps, [Leaf(k, [])]) == h + Matches(u, ps, []) == h == h % 256;
      assert Reported(u, ps, k, o, d) <==> h > 0;
      assert !Reported(Meant(u), ps, [], o, d);
      assert Claims(u, ps, [k]) == if h > 0 then 1 else 0;
    } else {
      NoKeysNoClaims(u, ps);
      MatchesAgree(u, ps, []);
      assert ObjectLeaves(u, false, k, o) == ObjectLeaves(Meant(u), false, [], o) == [];
    }
  }

  lemma {:induction false} MembersDiffer(u: Setup, ps: seq<Pair>, ms: Members, d: nat)
    requires FullKeys(u) && Telling(u) && |ps| < 256
    ensures ReportedInMembers(u, ps, ms, d) == ReportedInMembers(Meant(u), ps, ms, d) + Claims(u, ps, MembersKeys(ms))
    decreases ms
  {
    hide CountHits, Cut, ReportedIn, ReportedInAll, ObjectKeys, ObjectsKeys, Claims;
    NoKeysNoClaims(u, ps);
    if ms.Member? {
      ClaimsConcat(u, ps, ValueKeys(ms.key, ms.value), MembersKeys(ms.rest));
      MembersDiffer(u, ps, ms.rest, d);
      if ms.value.Sub? {
        ObjectDiffers(u, ps, ms.key, ms.value.o, d + 1);
      } else if ms.value.Items? {
        ObjectsDiffer(u, ps, ms.key, ms.value.os, d + 1);
      }
    }
  }

  lemma NoKeysNoClaims(u: Setup, ps: seq<Pair>)
    ensures Claims(u, ps, []) == 0
  {}

  lemma {:induction false} ObjectsDiffer(u: Setup, ps: seq<Pair>, k: text, os: Objects, d: nat)
    requires FullKeys(u) && Telling(u) && |ps| < 256 && d > 0
    ensures ReportedInAll(u, ps, k, os, d) == ReportedInAll(Meant(u), ps, [], os, d) + Claims(u, ps, ObjectsKeys(k, os))
    decreases os
  {
    hide CountHits, Cut, ReportedIn, ObjectKeys, Claims;
    NoKeysNoClaims(u, ps);
    if os.MoreObjects? {
      ClaimsConcat(u, ps, ObjectKeys(k, os.o), ObjectsKeys([], os.rest));
      ObjectDiffers(u, ps, k, os.o, d);
      ObjectsDiffer(u, ps, [], os.rest, d);
    }
  }

  /** Whatever the caller's options: a document is read as it is meant if and only if no empty object
      stands behind a key that a pair of interest matches with an empty value. A reader has fewer than
      256 pairs, since their number is a byte. */
  lemma EmptyObjectsExactly(u: Setup, ps: seq<Pair>, v: Value)
    requires FullKeys(u) && u.takesKey && FitDocument(v, u.valueSize) && |ps| < 256
    ensures (forall o: Options :: ReadAsMeant(u.(options := o), ps, v)) <==> Unclaimed(u, ps, DocumentKeys(v))
  {
    hide Unclaimed, MeanDocument, ReportedInDocument, Claims, ReadAsMeant;
    NoClaims(u, ps, DocumentKeys(v));
    if Unclaimed(u, ps, DocumentKeys(v)) {
      forall o: Options
        ensures ReadAsMeant(u.(options := o), ps, v)
      {
        SameMeaning(u.(options := o), u, ps, v);
      }
    } else {
      var o := Options(u.options.skipHeader, false, 1, 0);
      SetApart(u.(options := o), u, ps, v);
    }
  }

  /** The reports and what the pairs hold at the end are those the document means. */
  predicate ReadAsMeant(u: Setup, ps: seq<Pair>, v: Value)
    requires FitDocument(v, u.valueSize)
  {
    var m, n := MeanDocument(u, ps, v), MeanDocument(Meant(u), ps, v);
    m.events == n.events && m.pairs == n.pairs
  }

  lemma SameMeaning(w: Setup, u: Setup, ps: seq<Pair>, v: Value)
    requires FullKeys(u) && u.takesKey && FitDocument(v, u.valueSize) && Unclaimed(u, ps, DocumentKeys(v))
    requires w == u.(options := w.options)
    ensures ReadAsMeant(w, ps, v)
  {
    hide MeanDocument, CountHits;
    DocumentMeant(w, ps, v);
  }

  lemma SetApart(w: Setup, u: Setup, ps: seq<Pair>, v: Value)
    requires FullKeys(u) && FitDocument(v, u.valueSize) && |ps| < 256
    requires w == u.(options := w.options) && Telling(w) && Claims(u, ps, DocumentKeys(v)) > 0
    ensures !ReadAsMeant(w, ps, v)
  {
    hide MeanDocument, ReportedIn, ReportedInAll, Claims, ObjectKeys, ObjectsKeys;
    DocumentReports(w, ps, v);
    DocumentReports(Meant(w), ps, v);
    ClaimsByKeySize(w, u, ps, DocumentKeys(v));
    if v.Sub? {
      ObjectDiffers(w, ps, [], v.o, 1);
    } else {
      ObjectsDiffer(w, ps, [], v.os, 1);
    }
  }

  lemma {:induction false} ClaimsByKeySize(w: Setup, u: Setup, ps: seq<Pair>, keys: seq<text>)
    requires w.keySize == u.keySize
    ensures Claims(w, ps, keys) == Claims(u, ps, keys)
  {
    hide CountHits, Cut;
    if keys != [] {
      ClaimsByKeySize(w, u, ps, keys[1..]);
    }
  }

  /** A printed document without such an object, blanks and chunks as they may fall, is read as it is
      meant: its other empty objects hold nothing. */
  lemma PrintThenReadAsMeant(e: Env, v: Value, chunks: seq<text>)
    requires Fresh(e) && FitDocument(v, |e.value|) && Strip(false, Join(chunks)) == PrintValue(v)
    requires Unclaimed(SetupOf(e), e.pairs, DocumentKeys(v))
    ensures SafeAll(e, Join(chunks))
    ensures DriveAll(e, chunks).events == MeanDocument(Meant(SetupOf(e)), e.pairs, v).events
    ensures DriveAll(e, chunks).env.pairs == MeanDocument(Meant(SetupOf(e)), e.pairs, v).pairs
  {
    hide CString, Env.Wf, Env.Listening, DriveAll, MeanDocument, Unclaimed;
    PrintThenRead(e, v, chunks);
    DocumentMeant(SetupOf(e), e.pairs, v);
  }
}
