/**
 The wide-character directory stream of dirent_windows.h: a find handle over a fixed listing, one
 entry of look-ahead (cached), a flag for a failed seek (invalid), and seek positions that are
 hashes of the next file name.
 */
module DirectoryStream {
  import opened Results

  type Wchar = c: int | 0 < c < 65536 witness 1

  const MAX_PATH := 260

  /** A file name without its terminator; cFileName has room for MAX_PATH characters with it. */
  type FileName = s: seq<Wchar> | |s| < MAX_PATH

  const ULONG_SPAN := 0x1_0000_0000
  const LONG_MAX := 0x7FFF_FFFF

  // ---------- positions ----------

  /** djb2 on 32-bit unsigned long. */
  function Djb2(s: seq<Wchar>, hash: int): int {
    if s == [] then hash else Djb2(s[1..], (hash * 33 + s[0]) % ULONG_SPAN)
  }

  function Hash(name: FileName): int {
    Djb2(name, 5381) % (LONG_MAX + 1)
  }

  method DirentHash(name: FileName) returns (r: int)
    ensures r == Hash(name) && 0 <= r <= LONG_MAX
  {
    var hash := 5381;
    var i := 0;
    assert name[0..] == name;
    while i < |name|
      invariant 0 <= i <= |name| && 0 <= hash < ULONG_SPAN
      invariant Djb2(name[i..], hash) == Djb2(name, 5381)
    {
      var shifted := hash * 32 % ULONG_SPAN;
      assert (shifted + hash + name[i]) % ULONG_SPAN == (hash * 33 + name[i]) % ULONG_SPAN by {
        WrapOnce(hash * 32, hash + name[i]);
      }
      assert name[i..][1..] == name[i + 1..];
      hash := (shifted + hash + name[i]) % ULONG_SPAN;
      i := i + 1;
    }
    r := hash % (LONG_MAX + 1);
  }

  lemma WrapOnce(a: int, b: int)
    requires 0 <= a
    ensures (a % ULONG_SPAN + b) % ULONG_SPAN == (a + b) % ULONG_SPAN
  {
    var k := a / ULONG_SPAN;
    assert a == k * ULONG_SPAN + a % ULONG_SPAN;
    Periodic(a % ULONG_SPAN + b, k);
  }

  lemma {:induction false} Periodic(x: int, k: nat)
    ensures (x + k * ULONG_SPAN) % ULONG_SPAN == x % ULONG_SPAN
  {
    if k > 0 { Periodic(x, k - 1); }
  }

  /** The position reported for a stream that has rest still to deliver. */
  function Position(rest: seq<FileName>): int {
    if rest == [] then LONG_MAX else Hash(rest[0])
  }

  /** Index of the first entry with that hash, or the length of the listing. */
  function Find(listing: seq<FileName>, loc: int): (i: nat)
    ensures i <= |listing|
  {
    if listing == [] || Hash(listing[0]) == loc then 0 else 1 + Find(listing[1..], loc)
  }

  lemma {:induction false} FindFacts(listing: seq<FileName>, loc: int, k: nat)
    requires k <= |listing|
    ensures Find(listing, loc) < |listing| ==> Hash(listing[Find(listing, loc)]) == loc
    ensures (forall i :: 0 <= i < k ==> Hash(listing[i]) != loc) <==> k <= Find(listing, loc)
  {
    if listing != [] && Hash(listing[0]) != loc {
      var tail := listing[1..];
      FindFacts(tail, loc, if k > 0 then k - 1 else 0);
      forall i | 0 < i < k ensures listing[i] == tail[i - 1] {}
      forall i | 0 <= i < k - 1 ensures tail[i] == listing[i + 1] {}
    }
  }

  /** One step of the search: this entry is the one looked for, or the one looked for is later. */
  lemma FindStep(listing: seq<FileName>, loc: int, k: nat)
    requires k <= Find(listing, loc)
    ensures k < |listing| && Hash(listing[k]) == loc ==> Find(listing, loc) == k
    ensures k < |listing| && Hash(listing[k]) != loc ==> k + 1 <= Find(listing, loc)
  {
    FindFacts(listing, loc, k);
    if k < |listing| { FindFacts(listing, loc, k + 1); }
  }

  /**
   seekdir(telldir()) brings back exactly the same remaining entries if and only if no earlier
   entry hashes to the reported position; at the end of the stream, if and only if no entry hashes
   to the end marker.
   */
  lemma SeekTellExactly(listing: seq<FileName>, k: nat)
    requires k <= |listing|
    ensures listing[Find(listing, Position(listing[k..]))..] == listing[k..] <==>
      forall i :: 0 <= i < k ==> Hash(listing[i]) != Position(listing[k..])
  {
    var loc := Position(listing[k..]);
    var f := Find(listing, loc);
    FindFacts(listing, loc, k);
    if k < |listing| {
      assert listing[k..][0] == listing[k];
      if f > k { FindFacts(listing, loc, k + 1); }
    }
    assert |listing[f..]| == |listing| - f && |listing[k..]| == |listing| - k;
  }

  /** With distinct hashes, none of them the end marker, every position can be restored. */
  lemma DistinctHashesRestore(listing: seq<FileName>, k: nat)
    requires k <= |listing|
    requires forall i, j :: 0 <= i < j < |listing| ==> Hash(listing[i]) != Hash(listing[j])
    requires forall i :: 0 <= i < |listing| ==> Hash(listing[i]) != LONG_MAX
    ensures listing[Find(listing, Position(listing[k..]))..] == listing[k..]
  {
    SeekTellExactly(listing, k);
    if k < |listing| { assert listing[k..][0] == listing[k]; }
  }

  // ---------- which names the hash tells apart ----------

  const HASH_SPAN := 0x8000_0000

  predicate SameHash(x: int, y: int) {
    x % HASH_SPAN == y % HASH_SPAN
  }

  lemma SameHashMeans(x: int, y: int)
    ensures SameHash(x, y) <==> (x - y) % HASH_SPAN == 0
  {
  }

  lemma Multiples(d: int, k: int)
    requires d == k * HASH_SPAN
    ensures d % HASH_SPAN == 0
  {
  }

  /** 33 has the inverse 1041204193 modulo the span of the hash. */
  lemma TimesOdd(d: int)
    requires (33 * d) % HASH_SPAN == 0
    ensures d % HASH_SPAN == 0
  {
    var k := 33 * d / HASH_SPAN;
    assert 33 * d == k * HASH_SPAN;
    assert d == (1041204193 * k - 16 * d) * HASH_SPAN;
    Multiples(d, 1041204193 * k - 16 * d);
  }

  /** The reduction to 32 bits does not disturb the lower 31. */
  lemma Reduced(x: int)
    ensures SameHash(x % ULONG_SPAN, x)
  {
    var k := x / ULONG_SPAN;
    assert x - x % ULONG_SPAN == 2 * k * HASH_SPAN;
    Multiples(x - x % ULONG_SPAN, 2 * k);
    SameHashMeans(x, x % ULONG_SPAN);
  }

  lemma StepInjective(x: int, y: int, c: int)
    requires SameHash((x * 33 + c) % ULONG_SPAN, (y * 33 + c) % ULONG_SPAN)
    ensures SameHash(x, y)
  {
    Reduced(x * 33 + c);
    Reduced(y * 33 + c);
    SameHashMeans(x * 33 + c, y * 33 + c);
    TimesOdd(x - y);
    SameHashMeans(x, y);
  }

  /** The same characters never bring different hashes together. */
  lemma {:induction false} Djb2Injective(s: seq<Wchar>, x: int, y: int)
    requires SameHash(Djb2(s, x), Djb2(s, y))
    ensures SameHash(x, y)
    decreases |s|
  {
    hide SameHash;
    if s != [] {
      Djb2Injective(s[1..], (x * 33 + s[0]) % ULONG_SPAN, (y * 33 + s[0]) % ULONG_SPAN);
      StepInjective(x, y, s[0]);
    }
  }

  lemma {:induction false} Djb2Concat(s: seq<Wchar>, t: seq<Wchar>, x: int)
    ensures Djb2(s + t, x) == Djb2(t, Djb2(s, x))
    decreases |s|
  {
    if s == [] {
      assert s + t == t;
    } else {
      assert (s + t)[1..] == s[1..] + t;
      Djb2Concat(s[1..], t, (x * 33 + s[0]) % ULONG_SPAN);
    }
  }

  lemma CharInjective(h: int, a: Wchar, b: Wchar)
    requires SameHash((h * 33 + a) % ULONG_SPAN, (h * 33 + b) % ULONG_SPAN)
    ensures a == b
  {
    Reduced(h * 33 + a);
    Reduced(h * 33 + b);
    SameHashMeans(h * 33 + a, h * 33 + b);
    assert (a - b) % HASH_SPAN == 0 && -HASH_SPAN < a - b < HASH_SPAN;
  }

  /** Names that differ in exactly one place, as a.txt and b.txt do. */
  ghost predicate OnePlace(x: FileName, y: FileName) {
    |x| == |y| && exists i :: 0 <= i < |x| && x[i] != y[i] && x[..i] == y[..i] && x[i + 1..] == y[i + 1..]
  }

  /** They never have the same hash. */
  lemma OneCharacterShows(x: FileName, y: FileName)
    requires OnePlace(x, y)
    ensures Hash(x) != Hash(y)
  {
    var i :| 0 <= i < |x| && x[i] != y[i] && x[..i] == y[..i] && x[i + 1..] == y[i + 1..];
    var h, rest := Djb2(x[..i], 5381), x[i + 1..];
    if Hash(x) == Hash(y) {
      SplitHash(x, i, h);
      SplitHash(y, i, h);
      Djb2Injective(rest, (h * 33 + x[i]) % ULONG_SPAN, (h * 33 + y[i]) % ULONG_SPAN);
      CharInjective(h, x[i], y[i]);
      assert false;
    }
  }

  lemma SplitHash(x: FileName, i: nat, h: int)
    requires i < |x| && h == Djb2(x[..i], 5381)
    ensures Djb2(x, 5381) == Djb2(x[i + 1..], (h * 33 + x[i]) % ULONG_SPAN)
  {
    assert x == x[..i] + x[i..] && x[i..][1..] == x[i + 1..];
    Djb2Concat(x[..i], x[i..], 5381);
  }

  /** So in a listing of such names every entry can be told and sought. */
  lemma SimilarNamesRestore(listing: seq<FileName>, k: nat)
    requires k < |listing|
    requires forall i, j :: 0 <= i < j < |listing| ==> OnePlace(listing[i], listing[j])
    ensures listing[Find(listing, Position(listing[k..]))..] == listing[k..]
  {
    assert listing[k..][0] == listing[k];
    forall i | 0 <= i < k ensures Hash(listing[i]) != Position(listing[k..]) {
      OneCharacterShows(listing[i], listing[k]);
    }
    SeekTellExactly(listing, k);
  }

  /** Distinct names may collide: here, telling before the second entry and seeking back gives the first. */
  lemma CollidingNames()
    ensures var a: FileName, b: FileName := [97, 98], [98, 65];
      && a != b && Hash(a) == Hash(b)
      && Find([a, b], Position([a, b][1..])) == 0
  {
    var a: FileName, b: FileName := [97, 98], [98, 65];
    assert a[1..] == [98] && b[1..] == [65];
    assert Djb2(a, 5381) == (((5381 * 33 + 97) % ULONG_SPAN) * 33 + 98) % ULONG_SPAN == 5863208;
    assert Djb2(b, 5381) == (((5381 * 33 + 98) % ULONG_SPAN) * 33 + 65) % ULONG_SPAN == 5863208;
    assert [a, b][1..] == [b];
  }

  // ---------- the stream ----------

  datatype Dirent = Dirent(name: seq<Wchar>, off: int)

  class Dir {
    const listing: seq<FileName>  // what FindFirst and FindNext enumerate
    var pos: nat                  // entries the find handle has delivered
    var data: FileName            // the find data buffer
    var cached: bool
    var invalid: bool
    var open: bool                // handle != INVALID_HANDLE_VALUE

    ghost predicate Valid()
      reads this
    {
      && pos <= |listing|
      && (open ==> 0 < pos && data == listing[pos - 1])
      && (cached ==> open)
      && (open <==> listing != [])
    }

    /** What _wreaddir_r has still to deliver. */
    ghost function Remaining(): seq<FileName>
      reads this
      requires Valid()
    {
      if invalid || !open then [] else if cached then listing[pos - 1..] else listing[pos..]
    }

    constructor (names: seq<FileName>)
      ensures Valid() && listing == names
      ensures open ==> Remaining() == listing && !invalid
    {
      listing := names;
      pos, data := 0, [];
      cached, invalid, open := false, false, false;
      new;
      var found := DirentFirst();
    }

    method DirentFirst() returns (found: bool)
      modifies this
      ensures Valid()
      ensures found <==> open
      ensures open ==> cached && pos == 1 && invalid == old(invalid)
      ensures !open ==> invalid
    {
      if listing == [] {
        open, pos := false, 0;
        cached, invalid := false, true;
        return false;
      }
      open, pos, data := true, 1, listing[0];
      cached := true;
      return true;
    }

    method DirentNext() returns (datap: Option<FileName>)
      requires Valid() && open
      modifies this`cached, this`pos, this`data
      ensures Valid() && (cached ==> old(cached) && invalid)
      ensures datap == if old(Remaining()) == [] then None else Some(old(Remaining())[0])
      ensures Remaining() == if old(Remaining()) == [] then [] else old(Remaining())[1..]
      ensures datap.Some? ==> data == datap.value == listing[pos - 1] && !invalid
      ensures pos == if invalid || old(cached) || old(pos) == |listing| then old(pos) else old(pos) + 1
    {
      if invalid { return None; }
      if cached {
        cached := false;
        return Some(data);
      }
      if pos == |listing| { return None; }
      data := listing[pos];
      pos := pos + 1;
      return Some(data);
    }

    /** Copies at most PATH_MAX characters; every name fits. */
    static method CopyName(name: FileName) returns (copy: seq<Wchar>)
      ensures copy == name
    {
      copy := [];
      var i := 0;
      while i < MAX_PATH && i < |name|
        invariant 0 <= i <= |name| && copy == name[..i]
      {
        copy := copy + [name[i]];
        i := i + 1;
      }
    }

    /** Delivers the next entry together with the position of the one after it, or NULL at the end. */
    method Readdir() returns (code: int, result: Option<Dirent>)
      requires Valid()
      modifies this
      ensures Valid() && open == old(open) && invalid == old(invalid)
      ensures code == if open then 0 else -1
      ensures old(Remaining()) == [] ==> result == None && Remaining() == []
      ensures old(Remaining()) != [] ==>
        result == Some(Dirent(old(Remaining())[0], Position(Remaining()))) && Remaining() == old(Remaining())[1..]
    {
      if !open { return -1, None; }
      var datap := DirentNext();
      if datap.None? { return 0, None; }
      var name := CopyName(datap.value);
      datap := DirentNext();
      var off := LONG_MAX;
      if datap.Some? {
        off := DirentHash(datap.value);
        cached := true;
      }
      return 0, Some(Dirent(name, off));
    }

    method Telldir() returns (loc: int)
      requires Valid()
      modifies this
      ensures Valid() && open == old(open) && invalid == old(invalid)
      ensures Remaining() == old(Remaining())
      ensures loc == if open then Position(Remaining()) else -1
    {
      if !open { return -1; }
      var datap := DirentNext();
      if datap.None? { return LONG_MAX; }
      cached := true;
      loc := DirentHash(datap.value);
    }

    /** From any state, also after a failed seek: positions at the first entry with that hash. */
    method Seekdir(loc: int)
      requires Valid()
      modifies this
      ensures Valid() && open == old(open)
      ensures Remaining() == listing[Find(listing, loc)..]
      ensures invalid <==> Find(listing, loc) == |listing|
    {
      HashesAreNotNegative(listing, loc);
      if !open || loc < 0 {
        invalid := true;
        return;
      }
      var found := DirentFirst();
      invalid := false;
      ghost var k := 0;
      var hash := -1;
      while hash != loc
        invariant Valid() && open && !invalid
        invariant if cached then k == 0 && pos == 1 else pos == k
        invariant hash != loc ==> k <= Find(listing, loc)
        invariant hash == loc ==> !cached && k == Find(listing, loc) + 1
        decreases |listing| - k
      {
        var datap := DirentNext();
        FindStep(listing, loc, k);
        if datap.None? {
          invalid := true;
          return;
        }
        hash := DirentHash(datap.value);
        k := k + 1;
      }
      cached := true;
      invalid := false;
    }

    /** rewinddir keeps the invalid flag: after a failed seek the stream stays empty. */
    method Rewinddir()
      requires Valid()
      modifies this
      ensures Valid() && open == old(open) && invalid == old(invalid)
      ensures Remaining() == if invalid then [] else listing
      ensures listing != [] ==> (Remaining() == listing <==> !old(invalid))
    {
      if !open { return; }
      var found := DirentFirst();
    }

    /** The reading loop of scandir: every remaining entry exactly once, in order, then NULL. */
    method ReadAll() returns (names: seq<FileName>)
      requires Valid() && open
      modifies this
      ensures Valid() && names == old(Remaining()) && Remaining() == []
    {
      ghost var all := Remaining();
      names := [];
      var done := false;
      while !done
        invariant Valid() && open && names + Remaining() == all
        invariant done ==> Remaining() == []
        decreases |Remaining()|, !done
      {
        ghost var rest := Remaining();
        var code, entry := Readdir();
        if entry.None? {
          done := true;
        } else {
          MoveOver(names, rest, all);
          names := names + [entry.value.name];
        }
      }
    }

    /** Telling and seeking, on the stream itself. */
    method SeekBack() returns (loc: int)
      requires Valid() && open
      modifies this
      ensures Valid()
      ensures Remaining() == old(Remaining()) <==>
        forall i :: 0 <= i < |listing| - |old(Remaining())| ==> Hash(listing[i]) != Position(old(Remaining()))
    {
      ghost var k := |listing| - |Remaining()|;
      assert Remaining() == listing[k..];
      loc := Telldir();
      SeekTellExactly(listing, k);
      Seekdir(loc);
    }
  }

  lemma MoveOver(done: seq<FileName>, rest: seq<FileName>, all: seq<FileName>)
    requires rest != [] && done + rest == all
    ensures done + [rest[0]] + rest[1..] == all
  {
    assert rest == [rest[0]] + rest[1..];
  }

  lemma {:induction false} HashesAreNotNegative(listing: seq<FileName>, loc: int)
    ensures loc < 0 || listing == [] ==> Find(listing, loc) == |listing|
  {
    if listing != [] { HashesAreNotNegative(listing[1..], loc); }
  }
}
