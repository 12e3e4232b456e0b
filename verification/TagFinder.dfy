/**
 TagFinder: the log tag of a class, found by walking enclosing classes and then superclasses, behind
 an LRU cache of soft references that the collector may clear at any time.
 */
module TagFinders {
  import opened Results
  import opened JavaStrings

  /** What reading one of the three static fields gives. */
  datatype Field = NoField | NotAString | NoValue | Text(text: string)

  /** A loaded class: annotation value if there is one, the fields TAG, LOG_TAG and tag, and its two parents. */
  datatype Class = Class(
    annotation: Option<string>, fields: seq<Field>, enclosing: Option<Class>, superclass: Option<Class>)

  /** Class.forName. */
  datatype Lookup = Loaded(clz: Class) | NotFound | Throws

  // ---------- the uncached answer ----------

  function FieldTag(fields: seq<Field>): string {
    if fields == [] then "" else if fields[0].Text? then Trim(fields[0].text) else FieldTag(fields[1..])
  }

  function OwnTag(c: Class): string {
    var annotated := if c.annotation.Some? then Trim(c.annotation.value) else "";
    if annotated != "" then annotated else FieldTag(c.fields)
  }

  function EnclosingTag(c: Option<Class>): string {
    if c.None? then "" else if OwnTag(c.value) != "" then OwnTag(c.value) else EnclosingTag(c.value.enclosing)
  }

  function SuperTag(c: Option<Class>): string {
    if c.None? then "" else if OwnTag(c.value) != "" then OwnTag(c.value) else SuperTag(c.value.superclass)
  }

  function WalkTag(c: Class): string {
    var outer := EnclosingTag(Some(c));
    if outer != "" then outer else SuperTag(c.superclass)
  }

  function TagOf(l: Lookup): string {
    if l.Loaded? then WalkTag(l.clz) else ""
  }

  /** An annotation that is not blank wins over the fields, whatever they are. */
  lemma AnnotationFirst(c: Class, fields: seq<Field>)
    ensures c.annotation.Some? && Trim(c.annotation.value) != "" ==>
      OwnTag(c.(fields := fields)) == Trim(c.annotation.value)
    ensures c.annotation.None? || Trim(c.annotation.value) == "" ==> OwnTag(c) == FieldTag(c.fields)
  {
  }

  /** The first field that holds a string decides, even when it is blank. */
  lemma {:induction false} FirstTextDecides(before: seq<Field>, text: string, after: seq<Field>)
    requires forall f :: f in before ==> !f.Text?
    ensures FieldTag(before + [Text(text)] + after) == Trim(text)
    decreases |before|
  {
    var all := before + [Text(text)] + after;
    if before != [] {
      assert all[1..] == before[1..] + [Text(text)] + after && before[0] in before;
      FirstTextDecides(before[1..], text, after);
    }
  }

  /** The classes in the order in which they are asked. */
  function Enclosings(c: Option<Class>): seq<Class> {
    if c.None? then [] else [c.value] + Enclosings(c.value.enclosing)
  }

  function Supers(c: Option<Class>): seq<Class> {
    if c.None? then [] else [c.value] + Supers(c.value.superclass)
  }

  lemma {:induction false} EnclosingTagIs(c: Option<Class>, k: nat)
    requires k < |Enclosings(c)| && forall i :: 0 <= i < k ==> OwnTag(Enclosings(c)[i]) == ""
    ensures OwnTag(Enclosings(c)[k]) != "" ==> EnclosingTag(c) == OwnTag(Enclosings(c)[k])
    decreases k
  {
    if k > 0 {
      var rest := Enclosings(c.value.enclosing);
      assert OwnTag(Enclosings(c)[0]) == "" && forall i :: 0 <= i < |rest| ==> rest[i] == Enclosings(c)[i + 1];
      EnclosingTagIs(c.value.enclosing, k - 1);
    }
  }

  lemma {:induction false} NoEnclosingTag(c: Option<Class>)
    ensures EnclosingTag(c) == "" <==> forall d :: d in Enclosings(c) ==> OwnTag(d) == ""
    decreases c
  {
    if c.Some? {
      NoEnclosingTag(c.value.enclosing);
      assert c.value in Enclosings(c) && forall d :: d in Enclosings(c.value.enclosing) ==> d in Enclosings(c);
    }
  }

  lemma {:induction false} SuperTagIs(c: Option<Class>, k: nat)
    requires k < |Supers(c)| && forall i :: 0 <= i < k ==> OwnTag(Supers(c)[i]) == ""
    ensures OwnTag(Supers(c)[k]) != "" ==> SuperTag(c) == OwnTag(Supers(c)[k])
    decreases k
  {
    if k > 0 {
      var rest := Supers(c.value.superclass);
      assert OwnTag(Supers(c)[0]) == "" && forall i :: 0 <= i < |rest| ==> rest[i] == Supers(c)[i + 1];
      SuperTagIs(c.value.superclass, k - 1);
    }
  }

  /** The nearest enclosing class with a tag decides, whatever the superclasses are. */
  lemma EnclosingFirst(c: Class, k: nat, superclass: Option<Class>)
    requires k < |Enclosings(Some(c))| && OwnTag(Enclosings(Some(c))[k]) != ""
    requires forall i :: 0 <= i < k ==> OwnTag(Enclosings(Some(c))[i]) == ""
    ensures WalkTag(c) == OwnTag(Enclosings(Some(c))[k])
    ensures OwnTag(c) != "" ==> WalkTag(c.(superclass := superclass)) == OwnTag(c)
  {
    EnclosingTagIs(Some(c), k);
  }

  /** Only if no enclosing class has a tag, the nearest superclass with one decides. */
  lemma SuperSecond(c: Class, k: nat)
    requires forall d :: d in Enclosings(Some(c)) ==> OwnTag(d) == ""
    requires k < |Supers(c.superclass)| && OwnTag(Supers(c.superclass)[k]) != ""
    requires forall i :: 0 <= i < k ==> OwnTag(Supers(c.superclass)[i]) == ""
    ensures WalkTag(c) == OwnTag(Supers(c.superclass)[k])
  {
    NoEnclosingTag(Some(c));
    SuperTagIs(c.superclass, k);
  }

  // ---------- the LRU order, oldest first ----------

  function Without(keys: seq<string>, k: string): seq<string> {
    if keys == [] then [] else if keys[0] == k then keys[1..] else [keys[0]] + Without(keys[1..], k)
  }

  function Touched(keys: seq<string>, k: string): seq<string> {
    if k in keys then Without(keys, k) + [k] else keys
  }

  /** put: a known key moves to the end; a new one may push out the eldest. */
  function Stored(keys: seq<string>, k: string, max: nat): seq<string> {
    if k in keys then Without(keys, k) + [k]
    else if |keys| + 1 > max then (keys + [k])[1..]
    else keys + [k]
  }

  predicate Distinct(keys: seq<string>) {
    forall i, j :: 0 <= i < j < |keys| ==> keys[i] != keys[j]
  }

  lemma DistinctTail(keys: seq<string>)
    requires Distinct(keys) && keys != []
    ensures Distinct(keys[1..]) && forall x :: x in keys[1..] <==> x in keys && x != keys[0]
  {
    var tail := keys[1..];
    assert keys == [keys[0]] + tail;
    forall i | 0 <= i < |tail| ensures tail[i] != keys[0] { assert tail[i] == keys[i + 1]; }
  }

  lemma DistinctCons(x: string, keys: seq<string>)
    requires Distinct(keys) && x !in keys
    ensures Distinct([x] + keys) && Distinct(keys + [x])
  {
  }

  lemma {:induction false} WithoutFacts(keys: seq<string>, k: string)
    requires Distinct(keys)
    ensures forall x :: x in Without(keys, k) <==> x in keys && x != k
    ensures Distinct(Without(keys, k)) && |Without(keys, k)| == |keys| - (if k in keys then 1 else 0)
  {
    if keys != [] {
      DistinctTail(keys);
      WithoutFacts(keys[1..], k);
      if keys[0] != k { DistinctCons(keys[0], Without(keys[1..], k)); }
    }
  }

  lemma StoredFacts(keys: seq<string>, k: string, max: nat)
    requires Distinct(keys) && 0 < max
    ensures Distinct(Stored(keys, k, max)) && Distinct(Touched(keys, k))
    ensures forall x :: x in Touched(keys, k) <==> x in keys
    ensures forall x :: x in Stored(keys, k, max) ==> x in keys || x == k
    ensures |Touched(keys, k)| == |keys|
    ensures |Stored(keys, k, max)| <= if |keys| > max then |keys| else max
  {
    WithoutFacts(keys, k);
    DistinctCons(k, Without(keys, k));
    if k !in keys {
      DistinctCons(k, keys);
      DistinctTail(keys + [k]);
    }
  }

  /** The keys after one lookup; a hit only touches its key, a miss stores it as well. */
  function Looked(keys: seq<string>, name: string, hit: bool, max: nat): seq<string> {
    if hit then Touched(keys, name) else Stored(Touched(keys, name), name, max)
  }

  function LookedAll(keys: seq<string>, lookups: seq<(string, bool)>, max: nat): seq<string>
    decreases |lookups|
  {
    if lookups == [] then keys else LookedAll(Looked(keys, lookups[0].0, lookups[0].1, max), lookups[1..], max)
  }

  /**
   A put pushes out at most the eldest entry: a cache at or above its limit, say because the limit has
   been lowered, keeps its size through any lookups; one below never passes the limit.
   */
  lemma {:induction false} SizeAfterLookups(keys: seq<string>, lookups: seq<(string, bool)>, max: nat)
    requires Distinct(keys) && 0 < max
    ensures var later := LookedAll(keys, lookups, max);
      Distinct(later) && if |keys| >= max then |later| == |keys| else |keys| <= |later| <= max
    decreases |lookups|
  {
    if lookups != [] {
      var name := lookups[0].0;
      StoredFacts(keys, name, max);
      StoredFacts(Touched(keys, name), name, max);
      WithoutFacts(Touched(keys, name), name);
      SizeAfterLookups(Looked(keys, name, lookups[0].1, max), lookups[1..], max);
    }
  }

  // ---------- least recently used ----------

  /** The keys behind k, those looked up since, are all in seen. */
  ghost predicate Recent(keys: seq<string>, k: string, seen: set<string>) {
    exists i :: 0 <= i < |keys| && BehindIn(keys, i, k, seen)
  }

  ghost predicate BehindIn(keys: seq<string>, i: nat, k: string, seen: set<string>) {
    i < |keys| && keys[i] == k && forall j :: i < j < |keys| ==> keys[j] in seen
  }

  lemma {:induction false} RecentWithout(keys: seq<string>, k: string, name: string, seen: set<string>)
    requires Recent(keys, k, seen) && name != k
    ensures Recent(Without(keys, name), k, seen)
  {
    var i :| 0 <= i < |keys| && BehindIn(keys, i, k, seen);
    if keys[0] == name {
      assert BehindIn(keys[1..], i - 1, k, seen);
    } else if i == 0 {
      var rest := Without(keys[1..], name);
      WithoutIsPart(keys[1..], name);
      forall j | 0 <= j < |rest| ensures rest[j] in seen {
        assert rest[j] in rest && rest[j] in keys[1..];
        var m :| 1 <= m < |keys| && keys[m] == rest[j];
      }
      assert BehindIn(Without(keys, name), 0, k, seen);
    } else {
      assert BehindIn(keys[1..], i - 1, k, seen);
      RecentWithout(keys[1..], k, name, seen);
      var j :| 0 <= j < |Without(keys[1..], name)| && BehindIn(Without(keys[1..], name), j, k, seen);
      assert BehindIn(Without(keys, name), j + 1, k, seen);
    }
  }

  lemma {:induction false} WithoutIsPart(keys: seq<string>, name: string)
    ensures forall x :: x in Without(keys, name) ==> x in keys
  {
    if keys != [] {
      WithoutIsPart(keys[1..], name);
      assert keys == [keys[0]] + keys[1..];
    }
  }

  lemma RecentAppend(keys: seq<string>, k: string, name: string, seen: set<string>)
    requires Recent(keys, k, seen)
    ensures Recent(keys + [name], k, seen + {name})
  {
    var i :| 0 <= i < |keys| && BehindIn(keys, i, k, seen);
    assert BehindIn(keys + [name], i, k, seen + {name});
  }

  lemma {:induction false} DistinctSize(keys: seq<string>, seen: set<string>)
    requires Distinct(keys) && forall x :: x in keys ==> x in seen
    ensures |keys| <= |seen|
    decreases |keys|
  {
    if keys != [] {
      DistinctTail(keys);
      DistinctSize(keys[1..], seen - {keys[0]});
    }
  }

  /** The eldest key has everything else behind it. */
  lemma RecentIsNotEldest(keys: seq<string>, k: string, name: string, seen: set<string>, max: nat)
    requires Distinct(keys) && Recent(keys, k, seen) && name !in keys && |keys| >= max && |seen + {name}| < max
    ensures keys[0] != k && Recent((keys + [name])[1..], k, seen + {name})
  {
    RecentAppend(keys, k, name, seen);
    var i :| 0 <= i < |keys| && BehindIn(keys, i, k, seen);
    if i == 0 {
      DistinctTail(keys);
      DistinctCons(name, keys[1..]);
      DistinctSize(keys[1..] + [name], seen + {name});
    } else {
      assert BehindIn((keys + [name])[1..], i - 1, k, seen + {name});
    }
  }

  lemma RecentAfterLookup(keys: seq<string>, k: string, name: string, hit: bool, seen: set<string>, max: nat)
    requires Distinct(keys) && Recent(keys, k, seen) && 0 < max && |seen + ({name} - {k})| < max
    ensures Recent(Looked(keys, name, hit, max), k, seen + ({name} - {k}))
  {
    var i :| 0 <= i < |keys| && BehindIn(keys, i, k, seen);
    assert k in keys && (name != k ==> {name} - {k} == {name});
    if name == k {
      LookedSelf(keys, k, hit, max);
      assert BehindIn(Looked(keys, k, hit, max), |Looked(keys, k, hit, max)| - 1, k, seen + ({name} - {k}));
    } else if name in keys {
      LookedKnown(keys, name, hit, max);
      RecentWithout(keys, k, name, seen);
      RecentAppend(Without(keys, name), k, name, seen);
    } else if hit {
      assert BehindIn(keys, i, k, seen + ({name} - {k}));
    } else if |keys| + 1 > max {
      RecentIsNotEldest(keys, k, name, seen, max);
    } else {
      RecentAppend(keys, k, name, seen);
    }
  }

  lemma LookedSelf(keys: seq<string>, k: string, hit: bool, max: nat)
    requires Distinct(keys) && k in keys
    ensures var next := Looked(keys, k, hit, max); next != [] && next[|next| - 1] == k
  {
    StoredFacts(keys, k, 1);
  }

  /** Looking up a known key moves it to the end, once or twice. */
  lemma LookedKnown(keys: seq<string>, name: string, hit: bool, max: nat)
    requires Distinct(keys) && name in keys
    ensures Looked(keys, name, hit, max) == Without(keys, name) + [name]
  {
    WithoutFacts(keys, name);
    WithoutLast(Without(keys, name), name);
  }

  lemma {:induction false} WithoutLast(keys: seq<string>, name: string)
    requires name !in keys
    ensures Without(keys + [name], name) == keys
  {
    if keys != [] {
      assert (keys + [name])[1..] == keys[1..] + [name];
      WithoutLast(keys[1..], name);
    }
  }

  function Names(lookups: seq<(string, bool)>): set<string> {
    if lookups == [] then {} else {lookups[0].0} + Names(lookups[1..])
  }

  /** A key stays cached as long as fewer other keys than the limit have been looked up since. */
  lemma {:induction false} RecentlyUsedStays(
      keys: seq<string>, k: string, seen: set<string>, lookups: seq<(string, bool)>, max: nat)
    requires Distinct(keys) && Recent(keys, k, seen) && 0 < max && |seen + (Names(lookups) - {k})| < max
    ensures k in LookedAll(keys, lookups, max)
    decreases |lookups|
  {
    if lookups == [] {
      var i :| 0 <= i < |keys| && BehindIn(keys, i, k, seen);
    } else {
      var name, hit := lookups[0].0, lookups[0].1;
      var next := seen + ({name} - {k});
      assert seen + (Names(lookups) - {k}) == next + (Names(lookups[1..]) - {k});
      SmallerPart(next, next + (Names(lookups[1..]) - {k}));
      RecentAfterLookup(keys, k, name, hit, seen, max);
      StoredFacts(keys, name, max);
      StoredFacts(Touched(keys, name), name, max);
      RecentlyUsedStays(Looked(keys, name, hit, max), k, next, lookups[1..], max);
    }
  }

  lemma {:induction false} SmallerPart(a: set<string>, b: set<string>)
    requires a <= b
    ensures |a| <= |b|
  {
    if a != {} {
      var x :| x in a;
      SmallerPart(a - {x}, b - {x});
    }
  }

  class TagFinder {
    const classes: string -> Lookup
    var keys: seq<string>                    // LinkedHashMap in access order
    var refs: map<string, Option<string>>    // soft references; None once cleared
    var maxCacheSize: nat

    ghost predicate Valid()
      reads this
    {
      && 16 <= maxCacheSize
      && Distinct(keys) && (forall k :: k in keys <==> k in refs)
      && forall k :: k in refs && refs[k].Some? ==> refs[k].value == TagOf(classes(k))
    }

    constructor (classes: string -> Lookup)
      ensures Valid() && keys == [] && this.classes == classes && maxCacheSize == 512
    {
      this.classes := classes;
      keys, refs, maxCacheSize := [], map[], 512;
    }

    /** The collector clears any soft references. */
    method ClearReferences()
      requires Valid()
      modifies this`refs
      ensures Valid() && refs.Keys == old(refs).Keys
    {
      var gone: set<string> := *;
      refs := map k | k in refs :: if k in gone then None else refs[k];
    }

    method SetMaxCacheSize(maxSize: int)
      requires Valid()
      modifies this`maxCacheSize
      ensures Valid() && maxCacheSize == if maxSize < 16 then 16 else maxSize
    {
      maxCacheSize := if maxSize < 16 then 16 else maxSize;
    }

    method ClearCache()
      requires Valid()
      modifies this`keys, this`refs
      ensures Valid() && keys == []
    {
      keys, refs := [], map[];
    }

    static method SearchTagFieldInClass(c: Class) returns (tag: string)
      ensures tag == FieldTag(c.fields)
    {
      assert c.fields[0..] == c.fields;
      for i := 0 to |c.fields|
        invariant FieldTag(c.fields) == FieldTag(c.fields[i..])
      {
        if c.fields[i].Text? { return Trim(c.fields[i].text); }
        assert c.fields[i..][1..] == c.fields[i + 1..];
      }
      tag := "";
    }

    static method FindTagInClass(c: Class) returns (tag: string)
      ensures tag == OwnTag(c)
    {
      if c.annotation.Some? {
        tag := Trim(c.annotation.value);
        if tag != "" { return; }
      }
      tag := SearchTagFieldInClass(c);
    }

    static method FindTagByWalkingEnclosingAndSuper(start: Class) returns (tag: string)
      ensures tag == WalkTag(start)
    {
      var c := Some(start);
      while c.Some?
        invariant EnclosingTag(c) == EnclosingTag(Some(start))
        decreases c
      {
        tag := FindTagInClass(c.value);
        if tag != "" { return; }
        c := c.value.enclosing;
      }
      c := start.superclass;
      while c.Some?
        invariant SuperTag(c) == SuperTag(start.superclass)
        decreases c
      {
        tag := FindTagInClass(c.value);
        if tag != "" { return; }
        c := c.value.superclass;
      }
      tag := "";
    }

    method CacheTag(name: string, tag: string)
      requires Valid() && tag == TagOf(classes(name))
      modifies this`keys, this`refs
      ensures Valid() && keys == Stored(old(keys), name, maxCacheSize)
    {
      StoredFacts(keys, name, maxCacheSize);
      if name in keys {
        keys := Without(keys, name) + [name];
        refs := refs[name := Some(tag)];
      } else {
        keys := keys + [name];
        refs := refs[name := Some(tag)];
        if |keys| > maxCacheSize {
          DistinctTail(keys);
          refs := refs - {keys[0]};
          keys := keys[1..];
        }
      }
    }

    /** A hit moves the entry to the end, also when its reference has been cleared. */
    method Get(name: string) returns (r: Option<string>)
      requires Valid()
      modifies this`keys
      ensures Valid() && keys == Touched(old(keys), name)
      ensures r == if name in refs then refs[name] else None
    {
      StoredFacts(keys, name, maxCacheSize);
      if name !in keys { return None; }
      keys := Without(keys, name) + [name];
      r := refs[name];
    }

    /**
     Always the uncached answer, whatever the cache holds and whatever has been cleared; and the cache
     never ends up larger than it was or than the limit.
     */
    method FindTag(className: Option<string>) returns (tag: string)
      requires Valid()
      modifies this`keys, this`refs
      ensures Valid()
      ensures tag == if className.None? || className.value == "" then "" else TagOf(classes(className.value))
      ensures |keys| <= if |old(keys)| > maxCacheSize then |old(keys)| else maxCacheSize
      ensures className.Some? && className.value != "" ==>
        exists hit :: keys == Looked(old(keys), className.value, hit, maxCacheSize)
    {
      if className.None? || className.value == "" { return ""; }
      var name := className.value;
      StoredFacts(keys, name, maxCacheSize);
      ClearReferences();
      var cached := Get(name);
      if cached.Some? {
        assert keys == Looked(old(keys), name, true, maxCacheSize);
        return cached.value;
      }
      StoredFacts(keys, name, maxCacheSize);
      var l := classes(name);
      if l.Loaded? {
        tag := FindTagByWalkingEnclosingAndSuper(l.clz);
        if tag != "" {
          CacheTag(name, tag);
          assert keys == Looked(old(keys), name, false, maxCacheSize);
          return;
        }
      }
      CacheTag(name, "");
      assert keys == Looked(old(keys), name, false, maxCacheSize);
      tag := "";
    }
  }
}
