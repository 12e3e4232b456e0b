/**
 The listener registry of MessageDispatcher: an index from event class to listener entries and an
 inverse index from tag to event classes.  Listeners are held weakly, so the garbage collector may
 clear one at any moment; live is the set of listeners that have not been cleared.
 */
module MessageDispatchers {
  import opened Results

  type Class = nat
  type Tag = int
  type Listener = nat

  /** A WeakEventListener. */
  datatype Entry = Entry(tag: Tag, listener: Listener)

  datatype Registry = Registry(events: map<Class, seq<Entry>>, tags: map<Tag, seq<Class>>)

  const EMPTY := Registry(map[], map[])

  function At(events: map<Class, seq<Entry>>, c: Class): seq<Entry> {
    if c in events then events[c] else []
  }

  /** Entries whose listener is in live, in order. */
  function LiveOnly(es: seq<Entry>, live: set<Listener>): seq<Entry> {
    if es == [] then []
    else if es[0].listener in live then [es[0]] + LiveOnly(es[1..], live)
    else LiveOnly(es[1..], live)
  }

  /** Entries that do not carry the tag, in order. */
  function Others(es: seq<Entry>, t: Tag): seq<Entry> {
    if es == [] then []
    else if es[0].tag != t then [es[0]] + Others(es[1..], t)
    else Others(es[1..], t)
  }

  function Count(es: seq<Entry>, e: Entry): nat {
    if es == [] then 0 else (if es[0] == e then 1 else 0) + Count(es[1..], e)
  }

  function NonNull(cs: seq<Option<Class>>): seq<Class> {
    if cs == [] then [] else if cs[0].None? then NonNull(cs[1..]) else [cs[0].value] + NonNull(cs[1..])
  }

  function Put(events: map<Class, seq<Entry>>, c: Class, es: seq<Entry>): map<Class, seq<Entry>> {
    if es == [] then events - {c} else events[c := es]
  }

  // ---------- what the operations do ----------

  function AddAll(events: map<Class, seq<Entry>>, e: Entry, cs: seq<Class>): map<Class, seq<Entry>>
    decreases |cs|
  {
    if cs == [] then events else AddAll(events[cs[0] := At(events, cs[0]) + [e]], e, cs[1..])
  }

  function RemoveAll(events: map<Class, seq<Entry>>, t: Tag, cs: seq<Class>): map<Class, seq<Entry>>
    decreases |cs|
  {
    if cs == [] then events
    else RemoveAll(if cs[0] in events then Put(events, cs[0], Others(events[cs[0]], t)) else events, t, cs[1..])
  }

  function Registered(r: Registry, e: Entry, cs: seq<Class>): Registry {
    if cs == [] then r else Registry(AddAll(r.events, e, cs), r.tags[e.tag := cs])
  }

  function Unregistered(r: Registry, t: Tag): Registry {
    if t !in r.tags then r else Registry(RemoveAll(r.events, t, r.tags[t]), r.tags - {t})
  }

  predicate HasLive(es: seq<Entry>, t: Tag, live: set<Listener>) {
    exists e :: e in es && e.tag == t && e.listener in live
  }

  /** The second check of the sweep: some list of the tag's classes holds a live entry of the tag. */
  ghost predicate TagAlive(events: map<Class, seq<Entry>>, t: Tag, cs: seq<Class>, live: set<Listener>) {
    exists c :: c in cs && HasLive(At(events, c), t, live)
  }

  /** A sweep during which no listener dies. */
  ghost function Swept(r: Registry, live: set<Listener>): Registry {
    Registry(
      map c | c in r.events && LiveOnly(r.events[c], live) != [] :: LiveOnly(r.events[c], live),
      map t | t in r.tags && TagAlive(r.events, t, r.tags[t], live) :: r.tags[t])
  }

  // ---------- consistency of the two indexes ----------

  /** es holds e once for each time the class occurs in cs. */
  ghost predicate CountsMatch(events: map<Class, seq<Entry>>, cs: seq<Class>, e: Entry) {
    forall c: Class :: Count(At(events, c), e) == multiset(cs)[c]
  }

  /**
   owner names, for each registered tag, the listener it was registered with.  A dead listener may
   leave entries behind, even under a tag that has been registered again since; so everything is
   said about live ones.
   */
  ghost predicate Consistent(r: Registry, owner: map<Tag, Listener>, live: set<Listener>) {
    && owner.Keys == r.tags.Keys
    && (forall c :: c in r.events ==> r.events[c] != [])
    && (forall c, e :: c in r.events && e in r.events[c] && e.listener in live
          ==> e.tag in owner && owner[e.tag] == e.listener)
    && (forall t :: t in owner && owner[t] in live ==> CountsMatch(r.events, r.tags[t], Entry(t, owner[t])))
  }

  lemma {:induction false} CountPositive(es: seq<Entry>, e: Entry)
    ensures Count(es, e) > 0 <==> e in es
  {
    if es != [] { CountPositive(es[1..], e); assert es == [es[0]] + es[1..]; }
  }

  /** A live listener's entry is found from both sides. */
  lemma BothIndexes(r: Registry, owner: map<Tag, Listener>, live: set<Listener>, c: Class, e: Entry)
    requires Consistent(r, owner, live) && e.listener in live
    ensures e in At(r.events, c) <==> e.tag in r.tags && owner[e.tag] == e.listener && c in r.tags[e.tag]
    ensures e.tag in r.tags && owner[e.tag] == e.listener ==> Count(At(r.events, c), e) == multiset(r.tags[e.tag])[c]
  {
    CountPositive(At(r.events, c), e);
    if e.tag in owner && owner[e.tag] == e.listener {
      assert Entry(e.tag, owner[e.tag]) == e;
      assert CountsMatch(r.events, r.tags[e.tag], e);
    }
  }

  // ---------- sequences ----------

  lemma {:induction false} LiveOnlyConcat(a: seq<Entry>, b: seq<Entry>, live: set<Listener>)
    ensures LiveOnly(a + b, live) == LiveOnly(a, live) + LiveOnly(b, live)
  {
    if a == [] { assert a + b == b; }
    else {
      assert (a + b)[1..] == a[1..] + b;
      LiveOnlyConcat(a[1..], b, live);
    }
  }

  lemma LiveOnlyAppend(es: seq<Entry>, e: Entry, live: set<Listener>)
    ensures LiveOnly(es + [e], live) == LiveOnly(es, live) + if e.listener in live then [e] else []
    ensures e.listener !in live ==> LiveOnly(es + [e], live) == LiveOnly(es, live)
  {
    LiveOnlyConcat(es, [e], live);
    assert [e][1..] == [];
  }

  lemma {:induction false} CountConcat(a: seq<Entry>, b: seq<Entry>, e: Entry)
    ensures Count(a + b, e) == Count(a, e) + Count(b, e)
  {
    if a == [] { assert a + b == b; }
    else {
      assert (a + b)[1..] == a[1..] + b;
      CountConcat(a[1..], b, e);
    }
  }

  lemma {:induction false} LiveOnlyKeeps(es: seq<Entry>, live: set<Listener>, e: Entry)
    ensures e in LiveOnly(es, live) <==> e in es && e.listener in live
    ensures e.listener in live ==> Count(LiveOnly(es, live), e) == Count(es, e)
  {
    if es != [] {
      LiveOnlyKeeps(es[1..], live, e);
      assert es == [es[0]] + es[1..];
      if es[0].listener in live { CountConcat([es[0]], LiveOnly(es[1..], live), e); }
    }
  }

  /** Filtering by a smaller set of live listeners forgets the first filter. */
  lemma {:induction false} LiveOnlyTwice(es: seq<Entry>, live: set<Listener>, later: set<Listener>)
    requires later <= live
    ensures LiveOnly(LiveOnly(es, live), later) == LiveOnly(es, later)
  {
    if es != [] {
      LiveOnlyTwice(es[1..], live, later);
      if es[0].listener in live { LiveOnlyConcat([es[0]], LiveOnly(es[1..], live), later); }
    }
  }

  lemma {:induction false} OthersFacts(es: seq<Entry>, t: Tag, e: Entry)
    ensures e in Others(es, t) <==> e in es && e.tag != t
    ensures e.tag != t ==> Count(Others(es, t), e) == Count(es, e)
  {
    if es != [] {
      OthersFacts(es[1..], t, e);
      assert es == [es[0]] + es[1..];
      if es[0].tag != t { CountConcat([es[0]], Others(es[1..], t), e); }
    }
  }

  lemma {:induction false} OthersIdentity(es: seq<Entry>, t: Tag)
    requires forall e :: e in es ==> e.tag != t
    ensures Others(es, t) == es
  {
    if es != [] {
      assert es[0] in es && forall e :: e in es[1..] ==> e in es;
      OthersIdentity(es[1..], t);
    }
  }

  lemma {:induction false} OthersConcat(a: seq<Entry>, b: seq<Entry>, t: Tag)
    ensures Others(a + b, t) == Others(a, t) + Others(b, t)
  {
    if a == [] { assert a + b == b; }
    else {
      assert (a + b)[1..] == a[1..] + b;
      OthersConcat(a[1..], b, t);
    }
  }

  lemma OthersTwice(es: seq<Entry>, t: Tag)
    ensures Others(Others(es, t), t) == Others(es, t)
  {
    forall e | e in Others(es, t) ensures e.tag != t { OthersFacts(es, t, e); }
    OthersIdentity(Others(es, t), t);
  }

  /** a is b with some entries left out. */
  ghost predicate Within(a: seq<Entry>, b: seq<Entry>)
    decreases |b|
  {
    var m, n := |a| - 1, |b| - 1;
    a == [] || (b != [] && if a[m] == b[n] then Within(a[..m], b[..n]) else Within(a, b[..n]))
  }

  lemma {:induction false} WithinFront(a: seq<Entry>, b: seq<Entry>)
    requires Within(a, b) && a != []
    ensures Within(a[..|a| - 1], b)
    decreases |b|
  {
    var m, n := |a| - 1, |b| - 1;
    if a[m] != b[n] { WithinFront(a, b[..n]); }
    if m > 0 && a[m - 1] == b[n] { WithinFront(a[..m], b[..n]); }
  }

  lemma WithinAppend(a: seq<Entry>, b: seq<Entry>, e: Entry)
    requires Within(a, b)
    ensures Within(a + [e], b + [e]) && Within(a, b + [e])
  {
    assert (a + [e])[..|a|] == a && (b + [e])[..|b|] == b;
    if a != [] { WithinFront(a, b); }
  }

  lemma {:induction false} WithinCounts(a: seq<Entry>, b: seq<Entry>, e: Entry)
    requires Within(a, b)
    ensures Count(a, e) <= Count(b, e) && (e in a ==> e in b)
    decreases |b|
  {
    if a != [] {
      var m, n := |a| - 1, |b| - 1;
      assert a == a[..m] + [a[m]] && b == b[..n] + [b[n]];
      CountConcat(a[..m], [a[m]], e);
      CountConcat(b[..n], [b[n]], e);
      if a[m] == b[n] { WithinCounts(a[..m], b[..n], e); } else { WithinCounts(a, b[..n], e); }
    }
  }

  lemma {:induction false} LiveOnlyWithin(es: seq<Entry>, live: set<Listener>)
    ensures Within(LiveOnly(es, live), es)
    decreases |es|
  {
    if es != [] {
      var n := |es| - 1;
      assert es == es[..n] + [es[n]];
      LiveOnlyWithin(es[..n], live);
      LiveOnlyAppend(es[..n], es[n], live);
      WithinAppend(LiveOnly(es[..n], live), es[..n], es[n]);
    }
  }

  /** How often each entry is notified: once for each time it is due, unless its listener dies meanwhile. */
  lemma NotifiedCounts(notified: seq<Entry>, due: seq<Entry>, live: set<Listener>, live0: set<Listener>)
    requires LiveOnly(notified, live) == LiveOnly(due, live) && Within(notified, LiveOnly(due, live0))
    ensures forall e :: Count(LiveOnly(due, live), e) <= Count(notified, e) <= Count(LiveOnly(due, live0), e)
  {
    LiveOnlyWithin(notified, live);
    forall e ensures Count(LiveOnly(due, live), e) <= Count(notified, e) <= Count(LiveOnly(due, live0), e) {
      WithinCounts(LiveOnly(notified, live), notified, e);
      WithinCounts(notified, LiveOnly(due, live0), e);
    }
  }

  // ---------- registering and unregistering ----------

  lemma {:induction false} AddAllFacts(events: map<Class, seq<Entry>>, e: Entry, cs: seq<Class>, c: Class, x: Entry)
    ensures var r := AddAll(events, e, cs);
      && Count(At(r, c), x) == Count(At(events, c), x) + (if x == e then multiset(cs)[c] else 0)
      && Others(At(r, c), e.tag) == Others(At(events, c), e.tag)
      && (c in r <==> c in events || c in cs)
      && (c in cs || (c in events && events[c] != []) ==> At(r, c) != [])
    decreases |cs|
  {
    if cs != [] {
      var d := cs[0];
      var next := events[d := At(events, d) + [e]];
      assert multiset(cs) == multiset{d} + multiset(cs[1..]) by { assert cs == [d] + cs[1..]; }
      AddAllFacts(next, e, cs[1..], c, x);
      CountConcat(At(events, d), [e], x);
      OthersConcat(At(events, d), [e], e.tag);
    }
  }

  lemma {:induction false} RemoveAllFacts(events: map<Class, seq<Entry>>, t: Tag, cs: seq<Class>, c: Class)
    requires forall k :: k in events ==> events[k] != []
    ensures var r := RemoveAll(events, t, cs);
      && At(r, c) == (if c in cs then Others(At(events, c), t) else At(events, c))
      && (c in r <==> At(r, c) != [])
    decreases |cs|
  {
    if cs != [] {
      var d := cs[0];
      var next := if d in events then Put(events, d, Others(events[d], t)) else events;
      RemoveAllFacts(next, t, cs[1..], c);
      assert c in cs <==> c == d || c in cs[1..];
      OthersTwice(At(events, c), t);
    }
  }

  lemma RegisterKeeps(r: Registry, owner: map<Tag, Listener>, live: set<Listener>, e: Entry, cs: seq<Class>)
    requires Consistent(r, owner, live) && e.tag !in r.tags && cs != []
    requires forall c, x :: c in r.events && x in r.events[c] ==> x != e
    ensures Consistent(Registered(r, e, cs), owner[e.tag := e.listener], live)
  {
    var q := Registered(r, e, cs);
    var owner' := owner[e.tag := e.listener];
    forall c | c in q.events ensures q.events[c] != [] { AddAllFacts(r.events, e, cs, c, e); }
    forall c, x | c in q.events && x in q.events[c] && x.listener in live
      ensures x.tag in owner' && owner'[x.tag] == x.listener
    {
      AddAllFacts(r.events, e, cs, c, x);
      CountPositive(q.events[c], x);
      CountPositive(At(r.events, c), x);
    }
    forall t | t in owner' && owner'[t] in live ensures CountsMatch(q.events, q.tags[t], Entry(t, owner'[t])) {
      forall c: Class ensures Count(At(q.events, c), Entry(t, owner'[t])) == multiset(q.tags[t])[c] {
        var x := Entry(t, owner'[t]);
        AddAllFacts(r.events, e, cs, c, x);
        if t == e.tag {
          CountPositive(At(r.events, c), x);
        } else {
          assert CountsMatch(r.events, r.tags[t], x);
        }
      }
    }
  }

  lemma UnregisterKeeps(r: Registry, owner: map<Tag, Listener>, live: set<Listener>, t: Tag)
    requires Consistent(r, owner, live) && t in r.tags
    ensures Consistent(Unregistered(r, t), owner - {t}, live)
  {
    var q, cs := Unregistered(r, t), r.tags[t];
    forall c | c in q.events ensures q.events[c] != [] { RemoveAllFacts(r.events, t, cs, c); }
    forall c, x | c in q.events && x in q.events[c] && x.listener in live
      ensures x.tag in owner && x.tag != t && owner[x.tag] == x.listener
    {
      RemoveAllFacts(r.events, t, cs, c);
      OthersFacts(At(r.events, c), t, x);
      BothIndexes(r, owner, live, c, x);
    }
    forall u | u in owner && u != t && owner[u] in live ensures CountsMatch(q.events, q.tags[u], Entry(u, owner[u])) {
      var x := Entry(u, owner[u]);
      assert CountsMatch(r.events, r.tags[u], x);
      forall c: Class ensures Count(At(q.events, c), x) == multiset(q.tags[u])[c] {
        RemoveAllFacts(r.events, t, cs, c);
        OthersFacts(At(r.events, c), t, x);
      }
    }
  }

  /** unregister leaves every other tag's entries alone, and their order, whatever classes repeat. */
  lemma UnregisterTouchesOneTag(r: Registry, owner: map<Tag, Listener>, live: set<Listener>, t: Tag, c: Class)
    requires Consistent(r, owner, live)
    ensures Others(At(Unregistered(r, t).events, c), t) == Others(At(r.events, c), t)
    ensures forall u :: u != t ==> (u in Unregistered(r, t).tags <==> u in r.tags)
    ensures forall u :: u != t && u in r.tags ==> Unregistered(r, t).tags[u] == r.tags[u]
  {
    if t in r.tags {
      RemoveAllFacts(r.events, t, r.tags[t], c);
      OthersTwice(At(r.events, c), t);
    }
  }

  /** After a sweep with no listener dying meanwhile, no entry carries an unregistered tag. */
  lemma SweptHasNoStrayTag(r: Registry, owner: map<Tag, Listener>, live: set<Listener>, c: Class, e: Entry)
    requires Consistent(r, owner, live) && e in At(Swept(r, live).events, c)
    ensures e.listener in live && e.tag in Swept(r, live).tags
  {
    LiveOnlyKeeps(r.events[c], live, e);
    BothIndexes(r, owner, live, c, e);
    assert HasLive(At(r.events, c), e.tag, live);
  }

  /** register followed by unregister restores both maps exactly. */
  lemma UnregisterUndoesRegister(
      r: Registry, owner: map<Tag, Listener>, live: set<Listener>, e: Entry, cs: seq<Class>)
    requires Consistent(r, owner, live) && cs != []
    requires e.tag !in Swept(r, live).tags
    ensures Unregistered(Registered(Swept(r, live), e, cs), e.tag) == Swept(r, live)
  {
    hide AddAll, RemoveAll;
    var s := Swept(r, live);
    var q := Registered(s, e, cs);
    var u := Unregistered(q, e.tag);
    forall c: Class ensures c in q.events ==> q.events[c] != [] { AddAllFacts(s.events, e, cs, c, e); }
    forall c: Class ensures (c in u.events <==> c in s.events) && At(u.events, c) == At(s.events, c) {
      AddAllFacts(s.events, e, cs, c, e);
      RemoveAllFacts(q.events, e.tag, cs, c);
      forall x | x in At(s.events, c) ensures x.tag != e.tag { SweptHasNoStrayTag(r, owner, live, c, x); }
      OthersIdentity(At(s.events, c), e.tag);
      if c !in cs { AddAllElsewhere(s.events, e, cs, c); }
    }
    assert u.events == s.events by {
      forall c | c in u.events ensures u.events[c] == s.events[c] { assert At(u.events, c) == At(s.events, c); }
    }
    assert u.tags == s.tags;
  }

  lemma {:induction false} AddAllElsewhere(events: map<Class, seq<Entry>>, e: Entry, cs: seq<Class>, c: Class)
    requires c !in cs
    ensures At(AddAll(events, e, cs), c) == At(events, c)
    decreases |cs|
  {
    if cs != [] { AddAllElsewhere(events[cs[0] := At(events, cs[0]) + [e]], e, cs[1..], c); }
  }

  // ---------- sweeping while listeners die ----------

  /** Dropping entries of dead listeners keeps both indexes consistent. */
  lemma DropDeadKeeps(
      r: Registry, owner: map<Tag, Listener>, live: set<Listener>, c: Class, kept: seq<Entry>)
    requires Consistent(r, owner, live) && c in r.events
    requires LiveOnly(kept, live) == LiveOnly(r.events[c], live) && forall e :: e in kept ==> e in r.events[c]
    ensures Consistent(r.(events := Put(r.events, c, kept)), owner, live)
  {
    var q := r.(events := Put(r.events, c, kept));
    forall t | t in owner && owner[t] in live ensures CountsMatch(q.events, q.tags[t], Entry(t, owner[t])) {
      var x := Entry(t, owner[t]);
      assert CountsMatch(r.events, r.tags[t], x);
      LiveOnlyKeeps(kept, live, x);
      LiveOnlyKeeps(r.events[c], live, x);
      forall d: Class ensures Count(At(q.events, d), x) == multiset(q.tags[t])[d] {}
    }
  }

  lemma DropTagKeeps(r: Registry, owner: map<Tag, Listener>, live: set<Listener>, t: Tag)
    requires Consistent(r, owner, live) && t in r.tags
    requires !TagAlive(r.events, t, r.tags[t], live)
    ensures Consistent(r.(tags := r.tags - {t}), owner - {t}, live)
  {
    forall c, e | c in r.events && e in r.events[c] && e.listener in live ensures e.tag != t {
      BothIndexes(r, owner, live, c, e);
      assert HasLive(At(r.events, c), e.tag, live);
    }
  }

  /** Fewer live listeners: nothing to check anew. */
  lemma DyingKeeps(r: Registry, owner: map<Tag, Listener>, live: set<Listener>, later: set<Listener>)
    requires Consistent(r, owner, live) && later <= live
    ensures Consistent(r, owner, later)
  {
  }

  /** One entry of a sweep: live of before has shrunk to live when the entry is checked. */
  lemma KeepOne(
      kept: seq<Entry>, es: seq<Entry>, i: nat, live0: set<Listener>, before: set<Listener>, live: set<Listener>)
    requires i < |es| && live <= before <= live0
    requires LiveOnly(kept, before) == LiveOnly(es[..i], before) && Within(kept, LiveOnly(es[..i], live0))
    ensures var next := if es[i].listener in live then kept + [es[i]] else kept;
      && LiveOnly(next, live) == LiveOnly(es[..i + 1], live) && Within(next, LiveOnly(es[..i + 1], live0))
      && (live == before && kept == LiveOnly(es[..i], live) ==> next == LiveOnly(es[..i + 1], live))
  {
    hide LiveOnly, Within;
    var e := es[i];
    assert es[..i + 1] == es[..i] + [e];
    LiveOnlyTwice(kept, before, live);
    LiveOnlyTwice(es[..i], before, live);
    LiveOnlyAppend(es[..i], e, live);
    LiveOnlyAppend(kept, e, live);
    LiveOnlyAppend(es[..i], e, live0);
    WithinAppend(kept, LiveOnly(es[..i], live0), e);
  }

  lemma AddNext(events: map<Class, seq<Entry>>, e: Entry, given: seq<Option<Class>>, i: nat)
    requires i < |given|
    ensures var rest, c := NonNull(given[i + 1..]), given[i];
      && NonNull(given[i..]) == (if c.Some? then [c.value] + rest else rest)
      && AddAll(events, e, NonNull(given[i..]))
         == AddAll(if c.Some? then events[c.value := At(events, c.value) + [e]] else events, e, rest)
  {
    assert given[i..][1..] == given[i + 1..];
    var rest := NonNull(given[i + 1..]);
    if given[i].Some? { assert ([given[i].value] + rest)[1..] == rest; }
  }

  lemma AddNone(events: map<Class, seq<Entry>>, e: Entry, given: seq<Option<Class>>)
    ensures NonNull(given[|given|..]) == [] && AddAll(events, e, []) == events
  {
  }

  /** The two indexes show the same live entries, in the same order. */
  ghost predicate SameLive(a: map<Class, seq<Entry>>, b: map<Class, seq<Entry>>, live: set<Listener>) {
    forall c :: LiveOnly(At(a, c), live) == LiveOnly(At(b, c), live)
  }

  lemma SameLiveLater(
      a: map<Class, seq<Entry>>, b: map<Class, seq<Entry>>, live: set<Listener>, later: set<Listener>)
    requires SameLive(a, b, live) && later <= live
    ensures SameLive(a, b, later)
  {
    forall c ensures LiveOnly(At(a, c), later) == LiveOnly(At(b, c), later) {
      LiveOnlyTwice(At(a, c), live, later);
      LiveOnlyTwice(At(b, c), live, later);
    }
  }

  lemma SameLiveTags(a: map<Class, seq<Entry>>, b: map<Class, seq<Entry>>, t: Tag, cs: seq<Class>, live: set<Listener>)
    requires SameLive(a, b, live)
    ensures TagAlive(a, t, cs, live) <==> TagAlive(b, t, cs, live)
  {
    forall c, e: Entry | e.listener in live ensures e in At(a, c) <==> e in At(b, c) {
      LiveOnlyKeeps(At(a, c), live, e);
      LiveOnlyKeeps(At(b, c), live, e);
    }
    forall c ensures HasLive(At(a, c), t, live) <==> HasLive(At(b, c), t, live) {}
  }

  lemma TagDead(events: map<Class, seq<Entry>>, t: Tag, cs: seq<Class>, live: set<Listener>, later: set<Listener>)
    requires !TagAlive(events, t, cs, live) && later <= live
    ensures !TagAlive(events, t, cs, later)
  {
    if c :| c in cs && HasLive(At(events, c), t, later) {
      assert HasLive(At(events, c), t, live);
    }
  }

  /** The sweep has treated every class outside todo: what is left there was there, and live, before. */
  ghost predicate SweptSoFar(
      events: map<Class, seq<Entry>>, start: map<Class, seq<Entry>>, todo: set<Class>, live0: set<Listener>)
  {
    && todo <= events.Keys && events.Keys <= start.Keys
    && (forall c :: c in todo ==> events[c] == start[c])
    && (forall c :: c !in todo ==> Within(At(events, c), LiveOnly(At(start, c), live0)))
  }

  ghost predicate ExactSoFar(
      events: map<Class, seq<Entry>>, start: map<Class, seq<Entry>>, todo: set<Class>, live: set<Listener>)
  {
    forall c :: c !in todo ==> At(events, c) == LiveOnly(At(start, c), live)
  }

  lemma AtPut(events: map<Class, seq<Entry>>, c: Class, kept: seq<Entry>, d: Class)
    ensures At(Put(events, c, kept), d) == if d == c then kept else At(events, d)
    ensures d != c ==> (d in Put(events, c, kept) <==> d in events)
  {
  }

  lemma SweepOne(
      events: map<Class, seq<Entry>>, start: map<Class, seq<Entry>>, todo: set<Class>, c: Class, kept: seq<Entry>,
      live0: set<Listener>, live: set<Listener>)
    requires SweptSoFar(events, start, todo, live0) && c in todo
    requires Within(kept, LiveOnly(start[c], live0))
    ensures SweptSoFar(Put(events, c, kept), start, todo - {c}, live0)
    ensures ExactSoFar(events, start, todo, live) && kept == LiveOnly(start[c], live) ==>
      ExactSoFar(Put(events, c, kept), start, todo - {c}, live)
  {
    forall d { AtPut(events, c, kept, d); }
  }

  lemma PutSameLive(
      events: map<Class, seq<Entry>>, start: map<Class, seq<Entry>>, c: Class, kept: seq<Entry>, live: set<Listener>)
    requires SameLive(events, start, live) && LiveOnly(kept, live) == LiveOnly(At(events, c), live)
    ensures SameLive(Put(events, c, kept), start, live)
  {
    forall d { AtPut(events, c, kept, d); }
  }

  lemma ExactIsSwept(r: Registry, owner: map<Tag, Listener>, live: set<Listener>, start: Registry)
    requires Consistent(r, owner, live) && r.events.Keys <= start.events.Keys
    requires ExactSoFar(r.events, start.events, {}, live)
    ensures r.events == Swept(start, live).events
  {
    forall c: Class
      ensures c in r.events <==> c in start.events && LiveOnly(start.events[c], live) != []
      ensures c in r.events ==> r.events[c] == LiveOnly(start.events[c], live)
    {
      assert At(r.events, c) == LiveOnly(At(start.events, c), live);
    }
  }

  lemma TagsAreSwept(start: Registry, events: map<Class, seq<Entry>>, tags: map<Tag, seq<Class>>, live: set<Listener>)
    requires SameLive(events, start.events, live)
    requires tags.Keys <= start.tags.Keys && forall t :: t in tags ==> tags[t] == start.tags[t]
    requires forall t :: t in start.tags ==> (t in tags <==> TagAlive(events, t, start.tags[t], live))
    ensures tags == Swept(start, live).tags
  {
    forall t | t in start.tags
      ensures t in tags <==> TagAlive(start.events, t, start.tags[t], live)
    {
      SameLiveTags(events, start.events, t, start.tags[t], live);
    }
  }

  /** Of the classes given, exactly the nulls are dropped: the others keep their number and their order. */
  lemma {:induction false} NonNullKeeps(given: seq<Option<Class>>, c: Class)
    ensures multiset(NonNull(given))[c] == multiset(given)[Some(c)]
    ensures (forall o :: o in given ==> o.Some?) ==>
      |NonNull(given)| == |given| && forall i :: 0 <= i < |given| ==> Some(NonNull(given)[i]) == given[i]
  {
    if given != [] {
      var tail := given[1..];
      NonNullKeeps(tail, c);
      assert given == [given[0]] + tail;
      if given[0].Some? { assert NonNull(given) == [given[0].value] + NonNull(tail); }
      assert forall o :: o in tail ==> o in given;
    }
  }

  // ---------- counting all entries of a tag ----------

  /** Entries of a tag, whether or not their listener is alive. */
  function TagCount(es: seq<Entry>, t: Tag): nat {
    if es == [] then 0 else (if es[0].tag == t then 1 else 0) + TagCount(es[1..], t)
  }

  /** Those whose listener is dead. */
  function DeadCount(es: seq<Entry>, t: Tag, live: set<Listener>): nat {
    if es == [] then 0
    else (if es[0].tag == t && es[0].listener !in live then 1 else 0) + DeadCount(es[1..], t, live)
  }

  lemma {:induction false} TagCountSplits(es: seq<Entry>, t: Tag, l: Listener, live: set<Listener>)
    requires l in live && forall e :: e in es && e.tag == t && e.listener in live ==> e.listener == l
    ensures TagCount(es, t) == Count(es, Entry(t, l)) + DeadCount(es, t, live)
  {
    if es != [] {
      assert es[0] in es && forall e :: e in es[1..] ==> e in es;
      TagCountSplits(es[1..], t, l, live);
    }
  }

  /** A live listener's tag has its registered entries, and besides them only dead ones. */
  lemma TagCounts(r: Registry, owner: map<Tag, Listener>, live: set<Listener>, t: Tag, c: Class)
    requires Consistent(r, owner, live) && t in owner && owner[t] in live
    ensures TagCount(At(r.events, c), t) == multiset(r.tags[t])[c] + DeadCount(At(r.events, c), t, live)
  {
    TagCountSplits(At(r.events, c), t, owner[t], live);
    assert CountsMatch(r.events, r.tags[t], Entry(t, owner[t]));
  }

  /** So the plain count is right exactly when the tag has no dead entry left. */
  lemma PlainCountExactly(r: Registry, owner: map<Tag, Listener>, live: set<Listener>, t: Tag)
    requires Consistent(r, owner, live) && t in owner && owner[t] in live
    ensures (forall c: Class :: TagCount(At(r.events, c), t) == multiset(r.tags[t])[c])
      <==> (forall c, e :: e in At(r.events, c) && e.tag == t ==> e.listener in live)
  {
    forall c: Class
      ensures TagCount(At(r.events, c), t) == multiset(r.tags[t])[c]
        <==> forall e :: e in At(r.events, c) && e.tag == t ==> e.listener in live
    {
      TagCounts(r, owner, live, t, c);
      DeadCountZero(At(r.events, c), t, live);
    }
  }

  lemma {:induction false} DeadCountZero(es: seq<Entry>, t: Tag, live: set<Listener>)
    ensures DeadCount(es, t, live) == 0 <==> forall e :: e in es && e.tag == t ==> e.listener in live
  {
    if es != [] {
      DeadCountZero(es[1..], t, live);
      assert es == [es[0]] + es[1..];
    }
  }

  /** A sweep in which listeners die between its two halves: live before, later after. */
  ghost function SweptAcross(r: Registry, live: set<Listener>, later: set<Listener>): Registry {
    var events := Swept(r, live).events;
    Registry(events, map t | t in r.tags && TagAlive(events, t, r.tags[t], later) :: r.tags[t])
  }

  lemma SweptAcrossEntry(
      r: Registry, owner: map<Tag, Listener>, live: set<Listener>, later: set<Listener>, c: Class, e: Entry)
    requires Consistent(r, owner, live) && later <= live
    requires e in At(SweptAcross(r, live, later).events, c) && e.listener in later
    ensures e.tag in SweptAcross(r, live, later).tags && owner[e.tag] == e.listener
  {
    LiveOnlyKeeps(At(r.events, c), live, e);
    BothIndexes(r, owner, live, c, e);
    assert HasLive(At(Swept(r, live).events, c), e.tag, later);
  }

  lemma SweptAcrossCount(
      r: Registry, owner: map<Tag, Listener>, live: set<Listener>, later: set<Listener>, t: Tag)
    requires Consistent(r, owner, live) && later <= live && t in owner && owner[t] in later
    ensures CountsMatch(SweptAcross(r, live, later).events, r.tags[t], Entry(t, owner[t]))
  {
    var x := Entry(t, owner[t]);
    assert CountsMatch(r.events, r.tags[t], x);
    forall c: Class ensures Count(At(Swept(r, live).events, c), x) == Count(At(r.events, c), x) {
      LiveOnlyKeeps(At(r.events, c), live, x);
    }
  }

  lemma SweptAcrossKeeps(r: Registry, owner: map<Tag, Listener>, live: set<Listener>, later: set<Listener>)
    requires Consistent(r, owner, live) && later <= live
    ensures var q := SweptAcross(r, live, later);
      q.tags.Keys <= owner.Keys && Consistent(q, map t | t in q.tags :: owner[t], later)
  {
    var q := SweptAcross(r, live, later);
    forall c, e | c in q.events && e in q.events[c] && e.listener in later
      ensures e.tag in q.tags && owner[e.tag] == e.listener
    {
      SweptAcrossEntry(r, owner, live, later, c, e);
    }
    forall t | t in q.tags && owner[t] in later ensures CountsMatch(q.events, q.tags[t], Entry(t, owner[t])) {
      SweptAcrossCount(r, owner, live, later, t);
    }
  }

  /** A sweep without a death makes the plain count right for every tag it leaves. */
  lemma SweepMakesPlainCountRight(r: Registry, owner: map<Tag, Listener>, live: set<Listener>, t: Tag, c: Class)
    requires Consistent(r, owner, live) && t in Swept(r, live).tags
    ensures TagCount(At(Swept(r, live).events, c), t) == multiset(r.tags[t])[c]
  {
    var q := SweptAcross(r, live, live);
    var own := map u | u in q.tags :: owner[u];
    SweptAcrossKeeps(r, owner, live, live);
    SameTags(r, live, t);
    var d, e :| d in r.tags[t] && e in At(q.events, d) && e.tag == t && e.listener in live;
    forall x | x in At(q.events, c) ensures x.listener in live { LiveOnlyKeeps(r.events[c], live, x); }
    TagCounts(q, own, live, t, c);
    DeadCountZero(At(q.events, c), t, live);
  }

  lemma SameTags(r: Registry, live: set<Listener>, t: Tag)
    requires t in Swept(r, live).tags
    ensures t in r.tags && TagAlive(Swept(r, live).events, t, r.tags[t], live)
  {
    forall c ensures LiveOnly(At(Swept(r, live).events, c), live) == LiveOnly(At(r.events, c), live) {
      LiveOnlyTwice(At(r.events, c), live, live);
    }
    SameLiveTags(Swept(r, live).events, r.events, t, r.tags[t], live);
  }

  const FIRST_STEP := Registry(map[0 := [Entry(7, 1)]], map[7 := [0]])
  const SECOND_STEP := Registry(map[0 := [Entry(7, 1)]], map[])
  const THIRD_STEP := Registry(map[0 := [Entry(7, 1), Entry(7, 2)]], map[7 := [0]])

  lemma AddOne(events: map<Class, seq<Entry>>, e: Entry, c: Class)
    ensures AddAll(events, e, [c]) == events[c := At(events, c) + [e]]
  {
  }

  lemma FirstRegister()
    ensures FIRST_STEP == Registered(EMPTY, Entry(7, 1), [0]) && Consistent(FIRST_STEP, map[7 := 1], {1, 2})
  {
    var c: Class := 0;
    AddOne(EMPTY.events, Entry(7, 1), c);
    assert At(EMPTY.events, c) + [Entry(7, 1)] == [Entry(7, 1)];
    assert AddAll(EMPTY.events, Entry(7, 1), [c]) == FIRST_STEP.events;
    var first := Registered(EMPTY, Entry(7, 1), [0]);
    assert first.events == FIRST_STEP.events && first.tags == FIRST_STEP.tags;
    RegisterKeeps(EMPTY, map[], {1, 2}, Entry(7, 1), [0]);
  }

  lemma DeathBetweenHalves()
    ensures SECOND_STEP == SweptAcross(FIRST_STEP, {1, 2}, {2}) && Consistent(SECOND_STEP, map[], {2})
  {
    var es := [Entry(7, 1)];
    assert LiveOnly(es, {1, 2}) == es by { assert es[1..] == []; }
    assert !HasLive(es, 7, {2});
    assert SweptAcross(FIRST_STEP, {1, 2}, {2}).events == SECOND_STEP.events;
  }

  lemma SecondRegister()
    requires Consistent(SECOND_STEP, map[], {2})
    ensures THIRD_STEP == Registered(SECOND_STEP, Entry(7, 2), [0]) && Consistent(THIRD_STEP, map[7 := 2], {2})
  {
    var c: Class := 0;
    AddOne(SECOND_STEP.events, Entry(7, 2), c);
    assert At(SECOND_STEP.events, c) + [Entry(7, 2)] == [Entry(7, 1), Entry(7, 2)];
    assert AddAll(SECOND_STEP.events, Entry(7, 2), [c]) == THIRD_STEP.events;
    var third := Registered(SECOND_STEP, Entry(7, 2), [0]);
    assert third.events == THIRD_STEP.events && third.tags == THIRD_STEP.tags;
    RegisterKeeps(SECOND_STEP, map[], {2}, Entry(7, 2), [0]);
  }

  /**
   A listener dies between the halves of a sweep, and its tag is registered again, with another
   listener: class 0 now has two entries of the tag, which is registered with it once.
   */
  lemma StaleEntry()
    ensures FIRST_STEP == Registered(EMPTY, Entry(7, 1), [0]) && Consistent(FIRST_STEP, map[7 := 1], {1, 2})
    ensures SECOND_STEP == SweptAcross(FIRST_STEP, {1, 2}, {2}) && Consistent(SECOND_STEP, map[], {2})
    ensures THIRD_STEP == Registered(SECOND_STEP, Entry(7, 2), [0]) && Consistent(THIRD_STEP, map[7 := 2], {2})
    ensures TagCount(At(THIRD_STEP.events, 0), 7) == 2 && multiset(THIRD_STEP.tags[7])[0] == 1
  {
    FirstRegister();
    DeathBetweenHalves();
    SecondRegister();
    TagCountsOfTwo();
  }

  lemma TagCountsOfTwo()
    ensures TagCount([Entry(7, 1), Entry(7, 2)], 7) == 2
  {
    assert [Entry(7, 1), Entry(7, 2)][1..] == [Entry(7, 2)];
  }

  class MessageDispatcher {
    var mEventListeners: map<Class, seq<Entry>>
    var mTagEvents: map<Tag, seq<Class>>
    var mQuited: bool
    var live: set<Listener>
    ghost var owner: map<Tag, Listener>

    ghost function Reg(): Registry
      reads this
    {
      Registry(mEventListeners, mTagEvents)
    }

    ghost predicate Valid()
      reads this
    {
      Consistent(Reg(), owner, live)
    }

    constructor ()
      ensures Valid() && Reg() == EMPTY && !mQuited
    {
      mEventListeners, mTagEvents, mQuited := map[], map[], false;
      live, owner := {}, map[];
    }

    /** The application makes a new listener object, one that nothing refers to yet. */
    method NewListener(l: Listener)
      requires Valid()
      requires forall c, e :: c in mEventListeners && e in mEventListeners[c] ==> e.listener != l
      requires forall t :: t in owner ==> owner[t] != l
      modifies `live
      ensures Valid() && live == old(live) + {l}
    {
      live := live + {l};
    }

    /** The garbage collector: any listener that is not strongly held may die. */
    method Collect(held: set<Listener>)
      requires Valid()
      modifies `live
      ensures Valid() && live <= old(live) && held * old(live) <= live
    {
      var dead: set<Listener> := *;
      DyingKeeps(Reg(), owner, live, live - (dead - held));
      live := live - (dead - held);
    }

    /**
     One list of the sweep: an entry stays if its listener was still there when it was checked.  What is
     kept lies between the entries live at the end and those of live0, in their order.
     */
    method KeepValid(es: seq<Entry>, held: set<Listener>, ghost live0: set<Listener>) returns (kept: seq<Entry>)
      requires Valid() && live <= live0
      modifies `live
      ensures Valid() && live <= old(live) && held * old(live) <= live
      ensures LiveOnly(kept, live) == LiveOnly(es, live)
      ensures Within(kept, LiveOnly(es, live0))
      ensures forall e :: e in kept ==> e in es && e.listener in old(live)
      ensures live == old(live) ==> kept == LiveOnly(es, live)
    {
      kept := [];
      for i := 0 to |es|
        invariant Valid() && live <= old(live) && held * old(live) <= live
        invariant LiveOnly(kept, live) == LiveOnly(es[..i], live)
        invariant Within(kept, LiveOnly(es[..i], live0))
        invariant forall e :: e in kept ==> e in es && e.listener in old(live)
        invariant live == old(live) ==> kept == LiveOnly(es[..i], live)
      {
        ghost var before := live;
        Collect(held);
        assert live == old(live) ==> before == old(live);
        KeepOne(kept, es, i, live0, before, live);
        if es[i].listener in live {
          kept := kept + [es[i]];
        }
      }
      assert es[..|es|] == es;
    }

    /** First half of the sweep: every list of mEventListeners, in any order. */
    method SweepListeners(held: set<Listener>)
      requires Valid()
      modifies `live, `mEventListeners
      ensures Valid() && live <= old(live) && held * old(live) <= live
      ensures SameLive(mEventListeners, old(mEventListeners), live)
      ensures forall c :: Within(At(mEventListeners, c), LiveOnly(At(old(mEventListeners), c), old(live)))
      ensures live == old(live) ==> mEventListeners == Swept(old(Reg()), live).events
    {
      ghost var start := mEventListeners;
      var todo := mEventListeners.Keys;
      while todo != {}
        invariant Valid() && live <= old(live) && held * old(live) <= live
        invariant SweptSoFar(mEventListeners, start, todo, old(live))
        invariant SameLive(mEventListeners, start, live)
        invariant live == old(live) ==> ExactSoFar(mEventListeners, start, todo, live)
      {
        var c :| c in todo;
        ghost var before := live;
        var kept := KeepValid(mEventListeners[c], held, old(live));
        assert live == old(live) ==> before == old(live);
        SameLiveLater(mEventListeners, start, before, live);
        DropDeadKeeps(Reg(), owner, live, c, kept);
        SweepOne(mEventListeners, start, todo, c, kept, old(live), live);
        PutSameLive(mEventListeners, start, c, kept, live);
        mEventListeners := Put(mEventListeners, c, kept);
        todo := todo - {c};
      }
      if live == old(live) { ExactIsSwept(Reg(), owner, live, old(Reg())); }
    }

    /** Does some list of the tag still hold a listener of it that has not died? */
    method HasValidListener(t: Tag, cs: seq<Class>, held: set<Listener>) returns (found: bool)
      requires Valid()
      modifies `live
      ensures Valid() && live <= old(live) && held * old(live) <= live
      ensures found ==> TagAlive(mEventListeners, t, cs, old(live))
      ensures !found ==> !TagAlive(mEventListeners, t, cs, live)
    {
      for i := 0 to |cs|
        invariant Valid() && live <= old(live) && held * old(live) <= live
        invariant !TagAlive(mEventListeners, t, cs[..i], live)
      {
        ghost var before := live;
        found := AnyValid(t, At(mEventListeners, cs[i]), held);
        TagDead(mEventListeners, t, cs[..i], before, live);
        assert cs[..i + 1] == cs[..i] + [cs[i]];
        if found {
          assert HasLive(At(mEventListeners, cs[i]), t, old(live));
          return;
        }
      }
      assert cs[..|cs|] == cs;
      found := false;
    }

    method AnyValid(t: Tag, es: seq<Entry>, held: set<Listener>) returns (found: bool)
      requires Valid()
      modifies `live
      ensures Valid() && live <= old(live) && held * old(live) <= live
      ensures found ==> HasLive(es, t, old(live))
      ensures !found ==> !HasLive(es, t, live)
    {
      for j := 0 to |es|
        invariant Valid() && live <= old(live) && held * old(live) <= live
        invariant !HasLive(es[..j], t, live)
      {
        Collect(held);
        assert es[..j + 1] == es[..j] + [es[j]];
        if es[j].tag == t && es[j].listener in live { return true; }
      }
      assert es[..|es|] == es;
      found := false;
    }

    /** Second half of the sweep: tags without a live listener are forgotten. */
    method SweepTags(held: set<Listener>)
      requires Valid()
      modifies `live, `mTagEvents, `owner
      ensures Valid() && live <= old(live) && held * old(live) <= live
      ensures mTagEvents.Keys <= old(mTagEvents).Keys
      ensures forall t :: t in mTagEvents ==> mTagEvents[t] == old(mTagEvents)[t]
      ensures forall t :: t in mTagEvents ==> TagAlive(mEventListeners, t, mTagEvents[t], old(live))
      ensures forall t :: t in old(mTagEvents) && t !in mTagEvents ==>
        !TagAlive(mEventListeners, t, old(mTagEvents)[t], live)
    {
      hide Consistent, TagAlive;
      ghost var start := mTagEvents;
      var todo: set<Tag> := mTagEvents.Keys;
      while todo != {}
        invariant Valid() && live <= old(live) && held * old(live) <= live
        invariant todo <= mTagEvents.Keys <= start.Keys
        invariant forall t :: t in mTagEvents ==> mTagEvents[t] == start[t]
        invariant forall t :: t in mTagEvents && t !in todo ==> TagAlive(mEventListeners, t, start[t], old(live))
        invariant forall t :: t in start && t !in mTagEvents ==> !TagAlive(mEventListeners, t, start[t], live)
      {
        assert (forall t: Tag :: t !in todo) ==> todo == {};
        var t: Tag :| t in todo;
        ghost var before := live;
        var found := HasValidListener(t, mTagEvents[t], held);
        forall u | u in start && u !in mTagEvents ensures !TagAlive(mEventListeners, u, start[u], live) {
          TagDead(mEventListeners, u, start[u], before, live);
        }
        if found {
          AliveEarlier(mEventListeners, t, start[t], before, old(live));
        } else {
          DropTagKeeps(Reg(), owner, live, t);
          mTagEvents := mTagEvents - {t};
          owner := owner - {t};
        }
        todo := todo - {t};
      }
    }

    /**
     The sweep, with listeners dying at any point of it: no live listener loses an entry, no entry
     of a listener dead at the start stays, and without a death the result is Swept.
     */
    method RemoveInvalidatedListeners(held: set<Listener>)
      requires Valid()
      modifies `live, `mEventListeners, `mTagEvents, `owner
      ensures Valid() && live <= old(live) && held * old(live) <= live
      ensures SameLive(mEventListeners, old(mEventListeners), live)
      ensures forall c :: Within(At(mEventListeners, c), LiveOnly(At(old(mEventListeners), c), old(live)))
      ensures live == old(live) ==> Reg() == Swept(old(Reg()), live)
    {
      SweepListeners(held);
      ghost var mid := live;
      SweepTags(held);
      assert live == old(live) ==> mid == old(live);
      SameLiveLater(mEventListeners, old(mEventListeners), mid, live);
      if live == old(live) { TagsAreSwept(old(Reg()), mEventListeners, mTagEvents, live); }
    }

    /**
     Under the lock: sweep, refuse a tag that is still there, else add one entry per class.  swept is
     the registry between the two; the caller holds the listener throughout.
     */
    method Register(tag: Tag, listener: Option<Listener>, events: Option<seq<Option<Class>>>)
      returns (ok: bool, ghost swept: Registry)
      requires Valid() && (listener.Some? ==> listener.value in live)
      modifies `live, `mEventListeners, `mTagEvents, `owner
      ensures Valid() && live <= old(live)
      ensures ok <==>
        listener.Some? && events.Some? && !mQuited && tag !in swept.tags && NonNull(events.value) != []
      ensures listener.None? || events.None? || events.value == [] || mQuited ==> Reg() == old(Reg()) == swept
      ensures SameLive(swept.events, old(mEventListeners), live)
      ensures ok ==> Reg() == Registered(swept, Entry(tag, listener.value), NonNull(events.value))
      ensures ok ==> owner[tag] == listener.value && listener.value in live
      ensures !ok ==> Reg() == swept
      ensures live == old(live) && listener.Some? && events.Some? && events.value != [] && !mQuited ==>
        swept == Swept(old(Reg()), live)
    {
      swept := Reg();
      if listener.None? || events.None? || events.value == [] || mQuited {
        return false, swept;
      }
      RemoveInvalidatedListeners({listener.value});
      swept := Reg();
      if tag in mTagEvents {
        return false, swept;
      }
      var e := Entry(tag, listener.value);
      FreshEntry(swept, owner, live, e);
      ghost var own := owner;
      var registered := AddEntries(e, events.value);
      ok := registered != [];
      if ok {
        RegisterKeeps(swept, own, live, e, registered);
        mTagEvents := mTagEvents[tag := registered];
        owner := owner[tag := e.listener];
      }
    }

    method AddEntries(e: Entry, given: seq<Option<Class>>) returns (registered: seq<Class>)
      modifies `mEventListeners
      ensures registered == NonNull(given)
      ensures mEventListeners == AddAll(old(mEventListeners), e, registered)
    {
      hide AddAll, NonNull;
      ghost var all := NonNull(given);
      registered := [];
      assert given[0..] == given;
      for i := 0 to |given|
        invariant registered + NonNull(given[i..]) == all
        invariant AddAll(mEventListeners, e, NonNull(given[i..])) == AddAll(old(mEventListeners), e, all)
      {
        AddNext(mEventListeners, e, given, i);
        if given[i].Some? {
          var c := given[i].value;
          mEventListeners := mEventListeners[c := At(mEventListeners, c) + [e]];
          registered := registered + [c];
        }
      }
      AddNone(mEventListeners, e, given);
    }

    method WithoutTag(es: seq<Entry>, t: Tag) returns (rest: seq<Entry>)
      ensures rest == Others(es, t)
    {
      rest := [];
      for i := 0 to |es|
        invariant rest == Others(es[..i], t)
      {
        assert es[..i + 1] == es[..i] + [es[i]];
        OthersConcat(es[..i], [es[i]], t);
        if es[i].tag != t { rest := rest + [es[i]]; }
      }
      assert es[..|es|] == es;
    }

    method Unregister(t: Tag) returns (ok: bool)
      requires Valid()
      modifies `mEventListeners, `mTagEvents, `owner
      ensures Valid()
      ensures ok <==> !mQuited && t in old(mTagEvents)
      ensures Reg() == if ok then Unregistered(old(Reg()), t) else old(Reg())
    {
      if mQuited || t !in mTagEvents { return false; }
      UnregisterKeeps(Reg(), owner, live, t);
      var cs := mTagEvents[t];
      mTagEvents := mTagEvents - {t};
      RemoveEntries(t, cs);
      owner := owner - {t};
      ok := true;
    }

    method RemoveEntries(t: Tag, cs: seq<Class>)
      modifies `mEventListeners
      ensures mEventListeners == RemoveAll(old(mEventListeners), t, cs)
    {
      assert cs[0..] == cs;
      for i := 0 to |cs|
        invariant RemoveAll(mEventListeners, t, cs[i..]) == RemoveAll(old(mEventListeners), t, cs)
      {
        assert cs[i..][1..] == cs[i + 1..];
        if cs[i] in mEventListeners {
          var rest := WithoutTag(mEventListeners[cs[i]], t);
          mEventListeners := Put(mEventListeners, cs[i], rest);
        }
      }
      assert cs[|cs|..] == [];
    }

    method Clear()
      requires Valid()
      modifies `mEventListeners, `mTagEvents, `owner
      ensures Valid() && Reg() == if mQuited then old(Reg()) else EMPTY
    {
      if mQuited { return; }
      mEventListeners, mTagEvents, owner := map[], map[], map[];
    }

    method Quit()
      requires Valid()
      modifies `mEventListeners, `mTagEvents, `owner, `mQuited
      ensures Valid() && mQuited && Reg() == if old(mQuited) then old(Reg()) else EMPTY
    {
      if mQuited { return; }
      mQuited := true;
      mEventListeners, mTagEvents, owner := map[], map[], map[];
    }

    /**
     Delivery of one event, without concurrent registry change: the entries of the event's own class
     in registration order, then those of every other assignable class, each class once; every entry
     whose listener survives is notified exactly once, whether or not listeners throw.
     */
    method HandleMessage(
        eventClass: Class, assignable: (Class, Class) -> bool, throws: Listener -> bool)
      returns (notified: seq<Entry>, ghost others: seq<Class>)
      requires Valid()
      modifies `live
      ensures Valid() && live <= old(live)
      ensures NoRepeats(others)
      ensures forall c :: c in others <==> c in mEventListeners && c != eventClass && assignable(c, eventClass)
      ensures var due := At(mEventListeners, eventClass) + AllAt(mEventListeners, others);
        && LiveOnly(notified, live) == LiveOnly(due, live)
        && (live == old(live) ==> notified == LiveOnly(due, live))
        && Within(notified, LiveOnly(due, old(live)))
        && forall e :: Count(LiveOnly(due, live), e) <= Count(notified, e) <= Count(LiveOnly(due, old(live)), e)
      ensures forall e :: e in notified ==> e.listener in old(live)
    {
      var toNotify;
      toNotify, others := DueEntries(eventClass, assignable);
      var valid := KeepValid(toNotify, {}, live);
      notified := NotifyAll(valid, throws);
      NotifiedCounts(notified, toNotify, live, old(live));
    }

    /** An exception out of one listener is caught and logged; the loop goes on. */
    method NotifyAll(valid: seq<Entry>, throws: Listener -> bool) returns (notified: seq<Entry>)
      ensures notified == valid
    {
      notified := [];
      for i := 0 to |valid|
        invariant notified == valid[..i]
      {
        notified := notified + [valid[i]];
        if throws(valid[i].listener) { continue; }
      }
    }

    method DueEntries(eventClass: Class, assignable: (Class, Class) -> bool)
      returns (toNotify: seq<Entry>, ghost others: seq<Class>)
      ensures NoRepeats(others)
      ensures forall c :: c in others <==> c in mEventListeners && c != eventClass && assignable(c, eventClass)
      ensures toNotify == At(mEventListeners, eventClass) + AllAt(mEventListeners, others)
    {
      AllAtNone(mEventListeners);
      hide AllAt;
      toNotify := At(mEventListeners, eventClass);
      var todo := mEventListeners.Keys;
      others := [];
      while todo != {}
        invariant NoRepeats(others) && todo <= mEventListeners.Keys
        invariant forall c :: c in others <==>
          c in mEventListeners && c !in todo && c != eventClass && assignable(c, eventClass)
        invariant toNotify == At(mEventListeners, eventClass) + AllAt(mEventListeners, others)
      {
        var c :| c in todo;
        todo := todo - {c};
        if c == eventClass || !assignable(c, eventClass) { continue; }
        assert c !in others && At(mEventListeners, c) == mEventListeners[c];
        AllAtSnoc(mEventListeners, others, c);
        toNotify := toNotify + mEventListeners[c];
        others := others + [c];
      }
    }
  }

  ghost predicate NoRepeats(cs: seq<Class>) {
    forall i, j :: 0 <= i < j < |cs| ==> cs[i] != cs[j]
  }

  ghost function AllAt(events: map<Class, seq<Entry>>, cs: seq<Class>): seq<Entry> {
    if cs == [] then [] else AllAt(events, cs[..|cs| - 1]) + At(events, cs[|cs| - 1])
  }

  lemma AllAtNone(events: map<Class, seq<Entry>>)
    ensures AllAt(events, []) == []
  {
  }

  lemma AllAtSnoc(events: map<Class, seq<Entry>>, cs: seq<Class>, c: Class)
    ensures AllAt(events, cs + [c]) == AllAt(events, cs) + At(events, c)
  {
    assert (cs + [c])[..|cs|] == cs;
  }

  /** A held listener has no entry under a tag that is not registered. */
  lemma FreshEntry(r: Registry, owner: map<Tag, Listener>, live: set<Listener>, e: Entry)
    requires Consistent(r, owner, live) && e.listener in live && e.tag !in r.tags
    ensures forall c, x :: c in r.events && x in r.events[c] ==> x != e
  {
  }

  lemma AliveEarlier(
      events: map<Class, seq<Entry>>, t: Tag, cs: seq<Class>, live: set<Listener>, earlier: set<Listener>)
    requires TagAlive(events, t, cs, live) && live <= earlier
    ensures TagAlive(events, t, cs, earlier)
  {
    if !TagAlive(events, t, cs, earlier) { TagDead(events, t, cs, earlier, live); }
  }
}
