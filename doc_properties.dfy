/**
 * What the store promises across operations: a write puts one revision
 * under both keys at one second, a failure is not rolled back, a second
 * write in the same second replaces the first, and the newest revision is
 * the one just written.
 */
module DocProperties {
  import opened Wrappers
  import opened Decimal
  import opened Base64Url
  import opened TimeSlices
  import opened FileSystem
  import opened Docs

  /** Write reports success exactly when none of its four calls fails. */
  lemma WriteSucceedsIffNoFault(dirs: map<Key, Dir>, name: string, hash: string, data: string, now: Int64,
                                faults: set<Step>)
    ensures WriteState(dirs, name, hash, data, now, faults).0.None? <==> faults == {}
  {
    if faults != {} {
      var s :| s in faults;
      assert s == MkdirData || s == WriteData || s == MkdirHash || s == WriteHash;
    }
  }

  /** A successful write is one store into each of the two key directories. */
  lemma WriteNormalForm(dirs: map<Key, Dir>, name: string, hash: string, data: string, now: Int64)
    ensures var nk, hk, f := Key(DataDir, name), Key(HashDir, hash), FormatInt(now);
      WriteState(dirs, name, hash, data, now, {})
        == (None, dirs[nk := Put(DirOf(dirs, nk), f, data)][hk := Put(DirOf(dirs, hk), f, data)])
  {
    var nk, hk, f := Key(DataDir, name), Key(HashDir, hash), FormatInt(now);
    var d1 := EnsureDir(dirs, nk);
    var d2 := d1[nk := Put(d1[nk], f, data)];
    var n' := Put(DirOf(dirs, nk), f, data);
    var h' := Put(DirOf(dirs, hk), f, data);
    assert d1[nk] == DirOf(dirs, nk);
    if nk !in dirs {
      assert dirs[nk := []][nk := n'] == dirs[nk := n'];
    }
    assert d2 == dirs[nk := n'];
    assert EnsureDir(d2, hk)[hk] == DirOf(dirs, hk);
    if hk !in d2 {
      assert d2[hk := []][hk := h'] == d2[hk := h'];
    }
  }

  /**
   * A successful write stores Data under Name and under HashName at the
   * same second, creates the two key directories if needed, and changes no
   * other revision and no other key.
   */
  lemma WriteStoresBoth(dirs: map<Key, Dir>, name: string, hash: string, data: string, now: Int64)
    ensures var (err, after) := WriteState(dirs, name, hash, data, now, {});
      var nk, hk := Key(DataDir, name), Key(HashDir, hash);
      && err.None?
      && Revision(after, nk, now) == Some(data)
      && Revision(after, hk, now) == Some(data)
      && after.Keys == dirs.Keys + {nk, hk}
      && (forall k :: k in dirs && k != nk && k != hk ==> after[k] == dirs[k])
      && (forall t :: t != now ==> Revision(after, nk, t) == Revision(dirs, nk, t))
      && (forall t :: t != now ==> Revision(after, hk, t) == Revision(dirs, hk, t))
  {
    forall t: Int64 | t != now ensures FormatInt(t) != FormatInt(now) {
      FormatInjective(t, now);
    }
  }

  /**
   * No rollback: when a call on the hash side fails, the error is returned,
   * the copy under Name stays, and nothing under HashName has changed.
   */
  lemma HashSideFailureKeepsNameCopy(dirs: map<Key, Dir>, name: string, hash: string, data: string, now: Int64,
                                     faults: set<Step>)
    requires MkdirData !in faults && WriteData !in faults
    requires MkdirHash in faults || WriteHash in faults
    ensures var (err, after) := WriteState(dirs, name, hash, data, now, faults);
      && err == Some(IOFailure)
      && Revision(after, Key(DataDir, name), now) == Some(data)
      && forall t :: Revision(after, Key(HashDir, hash), t) == Revision(dirs, Key(HashDir, hash), t)
  {
  }

  /** A failure on the name side leaves no copy anywhere: nothing has been written yet. */
  lemma NameSideFailureWritesNothing(dirs: map<Key, Dir>, name: string, hash: string, data: string, now: Int64,
                                     faults: set<Step>)
    requires MkdirData in faults || WriteData in faults
    ensures var (err, after) := WriteState(dirs, name, hash, data, now, faults);
      && err == Some(IOFailure)
      && forall k, t :: Revision(after, k, t) == Revision(dirs, k, t)
  {
  }

  /**
   * Two writes of one name in the same second leave exactly what the second
   * write alone leaves: one revision at that second, holding the later Data,
   * under both keys.
   */
  lemma SameSecondWritesCollapse(dirs: map<Key, Dir>, name: string, hash: string, d1: string, d2: string,
                                 now: Int64)
    ensures WriteState(WriteState(dirs, name, hash, d1, now, {}).1, name, hash, d2, now, {}).1
         == WriteState(dirs, name, hash, d2, now, {}).1
  {
    var nk, hk, f := Key(DataDir, name), Key(HashDir, hash), FormatInt(now);
    WriteNormalForm(dirs, name, hash, d1, now);
    var once := dirs[nk := Put(DirOf(dirs, nk), f, d1)][hk := Put(DirOf(dirs, hk), f, d1)];
    WriteNormalForm(once, name, hash, d2, now);
    WriteNormalForm(dirs, name, hash, d2, now);
    OverwriteBoth(dirs, nk, hk, f, d1, d2);
  }

  /** Putting the same file name into two distinct directories twice keeps only the second contents. */
  lemma OverwriteBoth(dirs: map<Key, Dir>, nk: Key, hk: Key, f: string, d1: string, d2: string)
    requires nk != hk
    ensures var once := dirs[nk := Put(DirOf(dirs, nk), f, d1)][hk := Put(DirOf(dirs, hk), f, d1)];
      once[nk := Put(DirOf(once, nk), f, d2)][hk := Put(DirOf(once, hk), f, d2)]
        == dirs[nk := Put(DirOf(dirs, nk), f, d2)][hk := Put(DirOf(dirs, hk), f, d2)]
  {
    var once := dirs[nk := Put(DirOf(dirs, nk), f, d1)][hk := Put(DirOf(dirs, hk), f, d1)];
    assert DirOf(once, nk) == Put(DirOf(dirs, nk), f, d1);
    assert DirOf(once, hk) == Put(DirOf(dirs, hk), f, d1);
    PutTwice(DirOf(dirs, nk), f, d1, d2);
    PutTwice(DirOf(dirs, hk), f, d1, d2);
  }

  /** The times listed in directory d after a write at now: now joins the list unless a file for it was there. */
  lemma ListedAfterPut(d: Dir, now: Int64, data: string)
    ensures now in ParsedTimes(Put(d, FormatInt(now), data))
    ensures multiset(ParsedTimes(Put(d, FormatInt(now), data))) ==
      multiset(ParsedTimes(d)) + if Lookup(d, FormatInt(now)).Some? then multiset{} else multiset{now}
  {
    ParseFormat(now);
    TimesAfterPut(d, FormatInt(now), data);
    TimesListed(Put(d, FormatInt(now), data), now);
    assert Entry(FormatInt(now), data) in Put(d, FormatInt(now), data);
  }

  /**
   * Every revision a successful write stores is listed by ReadTimes and by
   * ReadHashTimes; the write adds at most that one time to each list.
   */
  lemma WriteListsRevision(dirs: map<Key, Dir>, name: string, hash: string, data: string, now: Int64)
    ensures var after := WriteState(dirs, name, hash, data, now, {}).1;
      var nk, hk := Key(DataDir, name), Key(HashDir, hash);
      && nk in after && hk in after
      && now in ParsedTimes(after[nk]) && now in ParsedTimes(after[hk])
      && multiset(ParsedTimes(after[nk])) == multiset(ParsedTimes(DirOf(dirs, nk)))
           + (if Revision(dirs, nk, now).Some? then multiset{} else multiset{now})
      && multiset(ParsedTimes(after[hk])) == multiset(ParsedTimes(DirOf(dirs, hk)))
           + (if Revision(dirs, hk, now).Some? then multiset{} else multiset{now})
  {
    WriteNormalForm(dirs, name, hash, data, now);
    ListedAfterPut(DirOf(dirs, Key(DataDir, name)), now, data);
    ListedAfterPut(DirOf(dirs, Key(HashDir, hash)), now, data);
  }

  /** In a directory whose every time is before now (now is After it), a write at now becomes the newest revision. */
  lemma NewestAfterPut(d: Dir, now: Int64, data: string)
    requires forall t :: t in ParsedTimes(d) ==> After(now, t)
    ensures ParsedTimes(Put(d, FormatInt(now), data)) != []
    ensures Newest(ParsedTimes(Put(d, FormatInt(now), data))) == now
    ensures Lookup(Put(d, FormatInt(now), data), FormatInt(now)) == Some(data)
  {
    var p := ParsedTimes(Put(d, FormatInt(now), data));
    RevisionIsListed(d, now);
    assert Lookup(d, FormatInt(now)).None?;
    ListedAfterPut(d, now, data);
    var m := Newest(p);
    assert now in p;
    assert m in multiset(ParsedTimes(d)) + multiset{now};
    assert m in ParsedTimes(d) || m == now;
    InternalSecInjective(m, now);
  }

  /**
   * Write then read latest: after a write at a second After every
   * revision of both keys, the newest revision under Name and under
   * HashName is the one just written, so ReadDocLatest and ReadHashLatest
   * both return its Data.
   */
  lemma LatestAfterWrite(dirs: map<Key, Dir>, name: string, hash: string, data: string, now: Int64)
    requires Key(DataDir, name) in dirs ==> forall t :: t in ParsedTimes(dirs[Key(DataDir, name)]) ==> After(now, t)
    requires Key(HashDir, hash) in dirs ==> forall t :: t in ParsedTimes(dirs[Key(HashDir, hash)]) ==> After(now, t)
    ensures var after := WriteState(dirs, name, hash, data, now, {}).1;
      var nk, hk := Key(DataDir, name), Key(HashDir, hash);
      && nk in after && ParsedTimes(after[nk]) != []
      && Newest(ParsedTimes(after[nk])) == now && Revision(after, nk, now) == Some(data)
      && hk in after && ParsedTimes(after[hk]) != []
      && Newest(ParsedTimes(after[hk])) == now && Revision(after, hk, now) == Some(data)
  {
    WriteNormalForm(dirs, name, hash, data, now);
    NewestAfterPut(DirOf(dirs, Key(DataDir, name)), now, data);
    NewestAfterPut(DirOf(dirs, Key(HashDir, hash)), now, data);
  }

  /**
   * Two writes of a new name at t1 and then at a t2 After it: the newest
   * revision is the second, the first is still readable at t1, and the
   * history, newest first, is exactly [t2, t1].
   */
  lemma HistoryOfTwoWrites(dirs: map<Key, Dir>, name: string, hash: string, c1: string, c2: string,
                           t1: Int64, t2: Int64)
    requires Key(DataDir, name) !in dirs
    requires After(t2, t1)
    ensures var after := WriteState(WriteState(dirs, name, hash, c1, t1, {}).1, name, hash, c2, t2, {}).1;
      var nk := Key(DataDir, name);
      && nk in after && ParsedTimes(after[nk]) != []
      && Newest(ParsedTimes(after[nk])) == t2
      && Revision(after, nk, t2) == Some(c2)
      && Revision(after, nk, t1) == Some(c1)
      && forall s: seq<Int64> :: NewestFirst(s) && multiset(s) == multiset(ParsedTimes(after[nk])) ==> s == [t2, t1]
  {
    var nk, f1, f2 := Key(DataDir, name), FormatInt(t1), FormatInt(t2);
    var mid := WriteState(dirs, name, hash, c1, t1, {}).1;
    WriteNormalForm(dirs, name, hash, c1, t1);
    WriteNormalForm(mid, name, hash, c2, t2);
    FormatInjective(t1, t2);
    assert DirOf(mid, nk) == [Entry(f1, c1)];
    assert Put([Entry(f1, c1)], f2, c2) == [Entry(f1, c1), Entry(f2, c2)];
    TwoFileHistory(t1, t2, c1, c2);
  }

  /** The directory two writes at t1 and then t2 leave: listed [t1, t2], sorted [t2, t1]. */
  lemma TwoFileHistory(t1: Int64, t2: Int64, c1: string, c2: string)
    requires After(t2, t1)
    ensures var d := [Entry(FormatInt(t1), c1), Entry(FormatInt(t2), c2)];
      && ParsedTimes(d) == [t1, t2]
      && Newest(ParsedTimes(d)) == t2
      && forall s: seq<Int64> :: NewestFirst(s) && multiset(s) == multiset(ParsedTimes(d)) ==> s == [t2, t1]
  {
    var f1, f2 := FormatInt(t1), FormatInt(t2);
    var d := [Entry(f1, c1), Entry(f2, c2)];
    ParseFormat(t1);
    ParseFormat(t2);
    assert NameTimes(f1) == [t1] && NameTimes(f2) == [t2];
    assert [Entry(f1, c1)][..0] == [];
    assert ParsedTimes([Entry(f1, c1)]) == [t1];
    assert d[..1] == [Entry(f1, c1)];
    assert ParsedTimes(d) == [t1, t2];
    forall s: seq<Int64> | NewestFirst(s) && multiset(s) == multiset(ParsedTimes(d)) ensures s == [t2, t1] {
      TwoTimesNewestFirst(s, t1, t2);
    }
  }

  /** Two distinct times have one newest-first order. */
  lemma TwoTimesNewestFirst(s: seq<Int64>, t1: Int64, t2: Int64)
    requires After(t2, t1) && NewestFirst(s) && multiset(s) == multiset{t1, t2}
    ensures s == [t2, t1]
  {
    assert |s| == |multiset(s)| == 2;
    assert s == [s[0], s[1]];
    assert multiset(s) == multiset{s[0], s[1]};
    assert !After(s[1], s[0]);
  }

  /**
   * A listed time need not have a readable revision: a file named "007" is
   * listed as the second 7, but the read looks for the file "7". With only
   * that file, ReadDocLatest fails with NotExist although Times is not empty.
   */
  lemma ListedTimeWithoutRevision(name: string)
    ensures var k := Key(DataDir, name);
      var dirs := map[k := [Entry("007", "x")]];
      && ParsedTimes(dirs[k]) == [7]
      && Newest(ParsedTimes(dirs[k])) == 7
      && Revision(dirs, k, 7).None?
  {
    LeadingZerosAlias();
    var d := [Entry("007", "x")];
    assert d[..0] == [];
    assert ParsedTimes(d) == ParsedTimes([]) + NameTimes("007");
  }

  /**
   * time.Unix wraps for seconds past MaxUnwrapped, so a file named by such a
   * second sorts as older than every ordinary one: next to files for 0 and
   * for MaxInt64, the newest time is 0 and a latest read returns the file
   * of second 0.
   */
  lemma WrappedSecondSortsOldest(name: string)
    ensures var k := Key(DataDir, name);
      var dirs := map[k := [Entry(FormatInt(0), "old"), Entry(FormatInt(MaxInt64), "huge")]];
      && ParsedTimes(dirs[k]) == [0, MaxInt64]
      && NewestTime(dirs, k) == 0
      && Revision(dirs, k, NewestTime(dirs, k)) == Some("old")
  {
    var d := [Entry(FormatInt(0), "old"), Entry(FormatInt(MaxInt64), "huge")];
    ParseFormat(0);
    ParseFormat(MaxInt64);
    FormatInjective(0, MaxInt64);
    assert NameTimes(FormatInt(0)) == [0] && NameTimes(FormatInt(MaxInt64)) == [MaxInt64];
    assert d[..0] == [] && d[..1] == [d[0]];
    assert ParsedTimes([d[0]]) == [0];
    assert ParsedTimes(d) == [0, MaxInt64];
    assert After(0, MaxInt64);
  }

  /**
   * Saving a document and then viewing it, by name and by hash: the path a
   * save request and the two latest-view requests take through the store.
   */
  method SaveThenViewLatest(disk: Disk, sha: string -> Digest, name: string, content: string, now: Int64)
    returns (byName: Doc?, byHash: Doc?)
    requires disk.Valid()
    requires Key(DataDir, name) in disk.dirs ==>
      forall t :: t in ParsedTimes(disk.dirs[Key(DataDir, name)]) ==> After(now, t)
    requires Key(HashDir, HashName(sha, name)) in disk.dirs ==>
      forall t :: t in ParsedTimes(disk.dirs[Key(HashDir, HashName(sha, name))]) ==> After(now, t)
    modifies disk
    ensures byName != null && byName.data == Some(content) && byName.time == Some(now)
    ensures byHash != null && byHash.data == Some(content) && byHash.time == Some(now)
  {
    var doc := new Doc();
    doc.name := Some(name);
    doc.data := Some(content);
    doc.Hash(sha);
    var err := doc.Write(disk, now, {});
    LatestAfterWrite(old(disk.dirs), name, HashName(sha, name), content, now);
    byName, err := ReadDocLatest(disk, sha, name);
    byHash, err := ReadHashLatest(disk, HashName(sha, name));
  }
}
