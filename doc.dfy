/**
 * The revisioned document store: Doc and the functions that write a
 * revision under both keys, list a key's revision times newest first, and
 * read a revision at an exact time or the newest one.
 */
module Docs {
  import opened Wrappers
  import opened Decimal
  import opened Base64Url
  import opened TimeSlices
  import opened FileSystem

  // ---------------------------------------------------------------------
  // Revision listing

  /** The time a file name stands for: one if it parses, none otherwise. */
  function NameTimes(fname: string): seq<Int64> {
    match ParseInt(fname)
    case Some(t) => [t]
    case None => []
  }

  /**
   * The times a walk of a key directory collects, in listing order: one per
   * file whose name parses as a base-10 int64. Other names are skipped.
   */
  function ParsedTimes(d: Dir): seq<Int64> {
    if d == [] then [] else ParsedTimes(d[..|d| - 1]) + NameTimes(d[|d| - 1].name)
  }

  lemma {:induction false} ParsedTimesAppend(a: Dir, b: Dir)
    ensures ParsedTimes(a + b) == ParsedTimes(a) + ParsedTimes(b)
    decreases |b|
  {
    if b == [] {
      assert a + b == a;
    } else {
      var b' := b[..|b| - 1];
      assert (a + b)[..|a + b| - 1] == a + b';
      assert (a + b)[|a + b| - 1] == b[|b| - 1];
      ParsedTimesAppend(a, b');
    }
  }

  /** A time is listed exactly when some file of the directory is named by it. */
  lemma TimesListed(d: Dir, t: Int64)
    ensures t in ParsedTimes(d) <==> exists e :: e in d && ParseInt(e.name) == Some(t)
  {
    if t in ParsedTimes(d) {
      FileOfListedTime(d, t);
    }
    if e :| e in d && ParseInt(e.name) == Some(t) {
      ListedTimeOfFile(d, e, t);
    }
  }

  lemma {:induction false} FileOfListedTime(d: Dir, t: Int64)
    requires t in ParsedTimes(d)
    ensures exists e :: e in d && ParseInt(e.name) == Some(t)
    decreases |d|
  {
    var d', last := d[..|d| - 1], d[|d| - 1];
    assert ParsedTimes(d) == ParsedTimes(d') + NameTimes(last.name);
    if t in ParsedTimes(d') {
      FileOfListedTime(d', t);
      var e :| e in d' && ParseInt(e.name) == Some(t);
      assert e in d;
    } else {
      assert ParseInt(last.name) == Some(t);
      assert last in d;
    }
  }

  lemma {:induction false} ListedTimeOfFile(d: Dir, e: Entry, t: Int64)
    requires e in d && ParseInt(e.name) == Some(t)
    ensures t in ParsedTimes(d)
    decreases |d|
  {
    var d', last := d[..|d| - 1], d[|d| - 1];
    assert d == d' + [last];
    assert ParsedTimes(d) == ParsedTimes(d') + NameTimes(last.name);
    if e == last {
      assert NameTimes(last.name) == [t];
    } else {
      assert e in d';
      ListedTimeOfFile(d', e, t);
    }
  }

  /** The listing of a directory with one file in front: that file's time comes first. */
  lemma ParsedTimesCons(e: Entry, rest: Dir)
    ensures ParsedTimes([e] + rest) == NameTimes(e.name) + ParsedTimes(rest)
  {
    ParsedTimesAppend([e], rest);
    assert ParsedTimes([e]) == NameTimes(e.name) by {
      assert [e][..0] == [];
      assert ParsedTimes([e]) == ParsedTimes([]) + NameTimes(e.name);
    }
  }

  /**
   * Writing file fname adds its time to the listing only when no file of
   * that name was there; overwriting keeps the listing's times.
   */
  lemma {:induction false} TimesAfterPut(d: Dir, fname: string, content: string)
    ensures multiset(ParsedTimes(Put(d, fname, content))) ==
      multiset(ParsedTimes(d)) + if Lookup(d, fname).Some? then multiset{} else multiset(NameTimes(fname))
    decreases |d|
  {
    if d == [] {
      ParsedTimesCons(Entry(fname, content), []);
      assert [Entry(fname, content)] + [] == Put(d, fname, content);
    } else {
      assert d == [d[0]] + d[1..];
      ParsedTimesCons(d[0], d[1..]);
      if d[0].name == fname {
        ParsedTimesCons(Entry(fname, content), d[1..]);
      } else {
        TimesAfterPut(d[1..], fname, content);
        ParsedTimesCons(d[0], Put(d[1..], fname, content));
      }
    }
  }

  /** Every file named by a second makes that second appear in the listing. */
  lemma RevisionIsListed(d: Dir, t: Int64)
    ensures Lookup(d, FormatInt(t)).Some? ==> t in ParsedTimes(d)
  {
    ParseFormat(t);
    TimesListed(d, t);
    if Lookup(d, FormatInt(t)).Some? {
      assert Entry(FormatInt(t), Lookup(d, FormatInt(t)).value) in d;
    }
  }

  /** The newest of a non-empty list of times: one that no listed time is After. */
  function Newest(ts: seq<Int64>): (m: Int64)
    requires ts != []
    ensures m in ts && forall t :: t in ts ==> !After(t, m)
  {
    if |ts| == 1 then ts[0]
    else
      var m := Newest(ts[1..]);
      assert forall t :: t in ts ==> t == ts[0] || t in ts[1..];
      if After(m, ts[0]) then m else ts[0]
  }

  /** The directory of key k, or an empty one when k has none yet. */
  function DirOf(dirs: map<Key, Dir>, k: Key): Dir {
    if k in dirs then dirs[k] else []
  }

  /**
   * The content of the revision of key k at second t: the file root/name/t
   * whose name is t written in decimal, if there is one.
   */
  function Revision(dirs: map<Key, Dir>, k: Key, t: Int64): (r: Option<string>)
    ensures r.Some? ==> k in dirs && Entry(FormatInt(t), r.value) in dirs[k]
    ensures r.None? ==> k !in dirs || forall e :: e in dirs[k] ==> e.name != FormatInt(t)
  {
    if k in dirs then Lookup(dirs[k], FormatInt(t)) else None
  }

  /** A file found in a directory with unique names is the one Lookup returns. */
  lemma {:induction false} LookupFindsEntry(d: Dir, e: Entry)
    requires UniqueNames(d) && e in d
    ensures Lookup(d, e.name) == Some(e.content)
    decreases |d|
  {
    if d[0] != e {
      assert e in d[1..];
      var k :| 0 <= k < |d[1..]| && d[1..][k] == e;
      assert d[k + 1] == e && d[0].name != e.name;
      LookupFindsEntry(d[1..], e);
    }
  }

  // ---------------------------------------------------------------------
  // Writing

  /** The four operating-system calls of Doc.Write, in the order it makes them. */
  datatype Step = MkdirData | WriteData | MkdirHash | WriteHash

  /**
   * The error and the directories after Doc.Write when the calls in faults
   * fail: the first failure is returned and what was written before it
   * stays.
   */
  function WriteState(dirs: map<Key, Dir>, name: string, hash: string, data: string, now: Int64,
                      faults: set<Step>): (Option<Error>, map<Key, Dir>)
  {
    var nk, hk, fname := Key(DataDir, name), Key(HashDir, hash), FormatInt(now);
    if MkdirData in faults then (Some(IOFailure), dirs)
    else
      var d1 := EnsureDir(dirs, nk);
      if WriteData in faults then (Some(IOFailure), d1)
      else
        var d2 := d1[nk := Put(d1[nk], fname, data)];
        if MkdirHash in faults then (Some(IOFailure), d2)
        else
          var d3 := EnsureDir(d2, hk);
          if WriteHash in faults then (Some(IOFailure), d3)
          else (None, d3[hk := Put(d3[hk], fname, data)])
  }

  // ---------------------------------------------------------------------
  // Doc

  class Doc {
    var name: Option<string>
    var hashName: Option<string>
    var data: Option<string>
    var time: Option<Int64>
    var times: TimeSlice?

    /** new(Doc): every field nil. */
    constructor ()
      ensures name.None? && hashName.None? && data.None? && time.None? && times == null
    {
      name, hashName, data, time, times := None, None, None, None, null;
    }

    /** Doc.Hash: HashName from Name; sha is SHA-256. */
    method Hash(sha: string -> Digest)
      requires name.Some?
      modifies this`hashName
      ensures hashName == Some(HashName(sha, name.value))
    {
      hashName := Some(HashName(sha, name.value));
    }

    /**
     * Doc.Write: Data goes to DataDir/Name/now and to HashDir/HashName/now,
     * both named by the same second. HashName must have been set by Hash.
     */
    method Write(disk: Disk, now: Int64, faults: set<Step>) returns (err: Option<Error>)
      requires name.Some? && hashName.Some? && data.Some?
      requires disk.Valid()
      modifies disk
      ensures disk.Valid()
      ensures (err, disk.dirs) == WriteState(old(disk.dirs), name.value, hashName.value, data.value, now, faults)
    {
      var fname := FormatInt(now);
      err := disk.MkdirAll(Key(DataDir, name.value), MkdirData in faults);
      if err.Some? {
        return;
      }
      err := disk.WriteFile(Key(DataDir, name.value), fname, data.value, WriteData in faults);
      if err.Some? {
        return;
      }
      err := disk.MkdirAll(Key(HashDir, hashName.value), MkdirHash in faults);
      if err.Some? {
        return;
      }
      err := disk.WriteFile(Key(HashDir, hashName.value), fname, data.value, WriteHash in faults);
    }

    /** Doc.ReadTimes: Times from the directory DataDir/Name. */
    method ReadTimes(disk: Disk) returns (err: Option<Error>)
      requires name.Some?
      modifies this`times
      ensures times != null && fresh(times) && times.Valid()
      ensures Listed(disk.dirs, Key(DataDir, name.value), times.Elements(), err)
    {
      times, err := CollectTimes(disk, Key(DataDir, name.value));
    }

    /** Doc.ReadHashTimes: Times from the directory HashDir/HashName. */
    method ReadHashTimes(disk: Disk) returns (err: Option<Error>)
      requires hashName.Some?
      modifies this`times
      ensures times != null && fresh(times) && times.Valid()
      ensures Listed(disk.dirs, Key(HashDir, hashName.value), times.Elements(), err)
    {
      times, err := CollectTimes(disk, Key(HashDir, hashName.value));
    }

    /** Doc.ReadData: Data from the file DataDir/Name/Time. */
    method ReadData(disk: Disk) returns (err: Option<Error>)
      requires name.Some? && time.Some? && disk.Valid()
      modifies this`data
      ensures Fetched(Revision(disk.dirs, Key(DataDir, name.value), time.value), old(data), data, err)
    {
      err := ReadRevision(disk, Key(DataDir, name.value));
    }

    /** Doc.ReadHashData: Data from the file HashDir/HashName/Time. */
    method ReadHashData(disk: Disk) returns (err: Option<Error>)
      requires hashName.Some? && time.Some? && disk.Valid()
      modifies this`data
      ensures Fetched(Revision(disk.dirs, Key(HashDir, hashName.value), time.value), old(data), data, err)
    {
      err := ReadRevision(disk, Key(HashDir, hashName.value));
    }

    /** doc.Time = &(*doc.Times)[0]: Time becomes the first, and so the newest, of the times listed from d. */
    method SelectNewest(ghost d: Dir)
      requires times != null && times.Valid() && ParsedTimes(d) != []
      requires NewestFirst(times.Elements()) && multiset(times.Elements()) == multiset(ParsedTimes(d))
      modifies this`time
      ensures time == Some(Newest(ParsedTimes(d)))
    {
      FirstIsNewest(times.Elements(), d);
      time := Some(times.elems[0]);
    }

    /** The read both ReadData and ReadHashData make: the file named by Time in directory k. */
    method ReadRevision(disk: Disk, k: Key) returns (err: Option<Error>)
      requires time.Some? && disk.Valid()
      modifies this`data
      ensures Fetched(Revision(disk.dirs, k, time.value), old(data), data, err)
    {
      var r := disk.ReadFile(k, FormatInt(time.value));
      if r.Failure? {
        return Some(r.error);
      }
      LookupFindsEntry(disk.dirs[k], Entry(FormatInt(time.value), r.value));
      data := Some(r.value);
      return None;
    }
  }

  /**
   * What a listing of key k leaves: a missing directory panics with an
   * empty list; otherwise the parsed times of its files, newest first.
   */
  ghost predicate Listed(dirs: map<Key, Dir>, k: Key, ts: seq<Int64>, err: Option<Error>) {
    && err == (if k in dirs then None else Some(NilInfoPanic))
    && (k !in dirs ==> ts == [])
    && (k in dirs ==> NewestFirst(ts) && multiset(ts) == multiset(ParsedTimes(dirs[k])))
  }

  /** What a read of a revision leaves: its content, or NotExist with Data untouched. */
  ghost predicate Fetched(rev: Option<string>, before: Option<string>, after: Option<string>, err: Option<Error>) {
    && err == (if rev.Some? then None else Some(NotExist))
    && after == (if rev.Some? then rev else before)
  }

  /**
   * The walk of ReadTimes and ReadHashTimes and the sort after it. The walk
   * of a missing directory hands its callback a nil FileInfo, and the
   * callback's info.IsDir() panics.
   */
  method CollectTimes(disk: Disk, k: Key) returns (ts: TimeSlice, err: Option<Error>)
    ensures fresh(ts) && ts.Valid()
    ensures Listed(disk.dirs, k, ts.Elements(), err)
  {
    if k !in disk.dirs {
      ts := new TimeSlice();
      return ts, Some(NilInfoPanic);
    }
    ts := GatherTimes(disk.dirs[k]);
    ts.Sort();
    err := None;
  }

  /** The walk's callback over a flat listing: every file name that parses as a time is appended, in listing order. */
  method GatherTimes(entries: Dir) returns (ts: TimeSlice)
    ensures fresh(ts) && fresh(ts.elems) && ts.Valid()
    ensures ts.Elements() == ParsedTimes(entries)
  {
    ts := new TimeSlice();
    var i := 0;
    while i < |entries|
      invariant 0 <= i <= |entries|
      invariant fresh(ts) && fresh(ts.elems) && ts.Valid()
      invariant ts.Elements() == ParsedTimes(entries[..i])
    {
      ParsedTimesPrefix(entries, i);
      AppendParsed(ts, entries[i].name);
      i := i + 1;
    }
    assert entries[..i] == entries;
  }

  /** One step of the walk: file name fname adds its time when it parses. */
  method AppendParsed(ts: TimeSlice, fname: string)
    requires ts.Valid()
    modifies ts, ts.elems
    ensures ts.Valid() && ts.Elements() == old(ts.Elements()) + NameTimes(fname)
    ensures ts.elems == old(ts.elems) || fresh(ts.elems)
  {
    var u := ParseInt(fname);
    if u.Some? {
      ts.Append(u.value);
    }
  }

  lemma ParsedTimesPrefix(d: Dir, i: nat)
    requires i < |d|
    ensures ParsedTimes(d[..i + 1]) == ParsedTimes(d[..i]) + NameTimes(d[i].name)
  {
    assert d[..i + 1][..i] == d[..i];
  }

  /** The first of a newest-first list holding the parsed times is their newest. */
  lemma FirstIsNewest(s: seq<Int64>, d: Dir)
    requires NewestFirst(s) && multiset(s) == multiset(ParsedTimes(d)) && ParsedTimes(d) != []
    ensures s != [] && s[0] == Newest(ParsedTimes(d))
  {
    var p := ParsedTimes(d);
    assert p[0] in multiset(s);
    FirstIsLatest(s, multiset(p));
    var m := Newest(p);
    assert m in multiset(p);
    assert !After(m, s[0]);
    assert s[0] in p;
    InternalSecInjective(m, s[0]);
  }

  /**
   * The opening both ReadDoc and ReadDocLatest make: a new Doc with Name and
   * HashName set, and Times read from DataDir/Name.
   */
  method OpenByName(disk: Disk, sha: string -> Digest, name: string) returns (doc: Doc, err: Option<Error>)
    ensures fresh(doc) && doc.name == Some(name) && doc.hashName == Some(HashName(sha, name))
    ensures doc.data.None? && doc.time.None?
    ensures doc.times != null && fresh(doc.times) && doc.times.Valid()
    ensures Listed(disk.dirs, Key(DataDir, name), doc.times.Elements(), err)
  {
    doc := new Doc();
    doc.name := Some(name);
    doc.Hash(sha);
    err := doc.ReadTimes(disk);
  }

  /** The opening both ReadHash and ReadHashLatest make: a new Doc with only HashName set, and Times from HashDir/HashName. */
  method OpenByHash(disk: Disk, hash: string) returns (doc: Doc, err: Option<Error>)
    ensures fresh(doc) && doc.name.None? && doc.hashName == Some(hash)
    ensures doc.data.None? && doc.time.None?
    ensures doc.times != null && fresh(doc.times) && doc.times.Valid()
    ensures Listed(disk.dirs, Key(HashDir, hash), doc.times.Elements(), err)
  {
    doc := new Doc();
    doc.hashName := Some(hash);
    err := doc.ReadHashTimes(disk);
  }

  /** ReadDoc: the revision of name at exactly t, and all of name's times. */
  method ReadDoc(disk: Disk, sha: string -> Digest, name: string, t: Int64) returns (doc: Doc?, err: Option<Error>)
    requires disk.Valid()
    ensures doc == null <==> err.Some?
    ensures err == (if Key(DataDir, name) !in disk.dirs then Some(NilInfoPanic)
                    else if Revision(disk.dirs, Key(DataDir, name), t).None? then Some(NotExist) else None)
    ensures doc != null ==> fresh(doc) && doc.name == Some(name) && doc.hashName == Some(HashName(sha, name))
    ensures doc != null ==> doc.times != null && fresh(doc.times) && doc.times.Valid()
    ensures doc != null ==> Listed(disk.dirs, Key(DataDir, name), doc.times.Elements(), None)
    ensures doc != null ==> doc.time == Some(t) && doc.data == Revision(disk.dirs, Key(DataDir, name), t)
  {
    var d: Doc;
    d, err := OpenByName(disk, sha, name);
    if err.Some? {
      return null, err;
    }
    ghost var slice, listed := d.times, d.times.Elements();
    d.time := Some(t);
    err := d.ReadData(disk);
    if err.Some? {
      return null, err;
    }
    assert d.times == slice && d.times.Elements() == listed;
    doc := d;
  }

  /**
   * ReadDocLatest: the revision of name at Times[0]. Times must not be
   * empty: the Go code indexes it without a check.
   */
  method ReadDocLatest(disk: Disk, sha: string -> Digest, name: string) returns (doc: Doc?, err: Option<Error>)
    requires disk.Valid()
    requires Key(DataDir, name) in disk.dirs ==> ParsedTimes(disk.dirs[Key(DataDir, name)]) != []
    ensures doc == null <==> err.Some?
    ensures Key(DataDir, name) !in disk.dirs ==> err == Some(NilInfoPanic)
    ensures Key(DataDir, name) in disk.dirs ==> err == LatestError(disk.dirs, Key(DataDir, name))
    ensures doc != null ==> fresh(doc) && doc.name == Some(name) && doc.hashName == Some(HashName(sha, name))
    ensures doc != null ==> doc.times != null && fresh(doc.times) && doc.times.Valid()
    ensures doc != null ==> Listed(disk.dirs, Key(DataDir, name), doc.times.Elements(), None)
    ensures doc != null ==> doc.time == Some(NewestTime(disk.dirs, Key(DataDir, name)))
    ensures doc != null ==> doc.data == Revision(disk.dirs, Key(DataDir, name), NewestTime(disk.dirs, Key(DataDir, name)))
  {
    var d: Doc;
    d, err := OpenByName(disk, sha, name);
    if err.Some? {
      return null, err;
    }
    ghost var slice, listed := d.times, d.times.Elements();
    ghost var newest := NewestTime(disk.dirs, Key(DataDir, name));
    d.SelectNewest(disk.dirs[Key(DataDir, name)]);
    assert d.times == slice && d.time == Some(newest) && d.data.None?;
    err := d.ReadData(disk);
    if err.Some? {
      return null, err;
    }
    assert d.times == slice && d.times.Elements() == listed;
    doc := d;
  }

  /** The newest time listed for key k: the one a latest read selects. */
  function NewestTime(dirs: map<Key, Dir>, k: Key): Int64
    requires k in dirs && ParsedTimes(dirs[k]) != []
  {
    Newest(ParsedTimes(dirs[k]))
  }

  /** The error of a latest read of key k: NotExist when no file carries the canonical name of the newest time. */
  function LatestError(dirs: map<Key, Dir>, k: Key): Option<Error>
    requires k in dirs && ParsedTimes(dirs[k]) != []
  {
    if Revision(dirs, k, NewestTime(dirs, k)).None? then Some(NotExist) else None
  }

  /** ReadHash: the revision under hash at exactly t, and all of the hash's times. */
  method ReadHash(disk: Disk, hash: string, t: Int64) returns (doc: Doc?, err: Option<Error>)
    requires disk.Valid()
    ensures doc == null <==> err.Some?
    ensures err == (if Key(HashDir, hash) !in disk.dirs then Some(NilInfoPanic)
                    else if Revision(disk.dirs, Key(HashDir, hash), t).None? then Some(NotExist) else None)
    ensures doc != null ==> fresh(doc) && doc.name.None? && doc.hashName == Some(hash)
    ensures doc != null ==> doc.times != null && fresh(doc.times) && doc.times.Valid()
    ensures doc != null ==> Listed(disk.dirs, Key(HashDir, hash), doc.times.Elements(), None)
    ensures doc != null ==> doc.time == Some(t) && doc.data == Revision(disk.dirs, Key(HashDir, hash), t)
  {
    var d: Doc;
    d, err := OpenByHash(disk, hash);
    if err.Some? {
      return null, err;
    }
    ghost var slice, listed := d.times, d.times.Elements();
    d.time := Some(t);
    err := d.ReadHashData(disk);
    if err.Some? {
      return null, err;
    }
    assert d.times == slice && d.times.Elements() == listed;
    doc := d;
  }

  /** ReadHashLatest: the revision under hash at Times[0], which must exist. */
  method ReadHashLatest(disk: Disk, hash: string) returns (doc: Doc?, err: Option<Error>)
    requires disk.Valid()
    requires Key(HashDir, hash) in disk.dirs ==> ParsedTimes(disk.dirs[Key(HashDir, hash)]) != []
    ensures doc == null <==> err.Some?
    ensures Key(HashDir, hash) !in disk.dirs ==> err == Some(NilInfoPanic)
    ensures Key(HashDir, hash) in disk.dirs ==> err == LatestError(disk.dirs, Key(HashDir, hash))
    ensures doc != null ==> fresh(doc) && doc.name.None? && doc.hashName == Some(hash)
    ensures doc != null ==> doc.times != null && fresh(doc.times) && doc.times.Valid()
    ensures doc != null ==> Listed(disk.dirs, Key(HashDir, hash), doc.times.Elements(), None)
    ensures doc != null ==> doc.time == Some(NewestTime(disk.dirs, Key(HashDir, hash)))
    ensures doc != null ==> doc.data == Revision(disk.dirs, Key(HashDir, hash), NewestTime(disk.dirs, Key(HashDir, hash)))
  {
    var d: Doc;
    d, err := OpenByHash(disk, hash);
    if err.Some? {
      return null, err;
    }
    ghost var slice, listed := d.times, d.times.Elements();
    ghost var newest := NewestTime(disk.dirs, Key(HashDir, hash));
    d.SelectNewest(disk.dirs[Key(HashDir, hash)]);
    assert d.times == slice && d.time == Some(newest) && d.data.None?;
    err := d.ReadHashData(disk);
    if err.Some? {
      return null, err;
    }
    assert d.times == slice && d.times.Elements() == listed;
    doc := d;
  }
}
