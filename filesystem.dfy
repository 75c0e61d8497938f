/**
 * The storage area as the store sees it: two roots, one directory per key
 * under each, and in each directory a flat list of files. WriteFile and
 * ReadFile become a store and a lookup.
 */
module FileSystem {
  import opened Wrappers

  /** config.DataDir holds revisions by document name, config.HashDir by hash name. */
  datatype Root = DataDir | HashDir

  /** The directory root/name. */
  datatype Key = Key(root: Root, name: string)

  /** One file of a key directory: its name and its whole content. */
  datatype Entry = Entry(name: string, content: string)

  /** A key directory, in listing order. */
  type Dir = seq<Entry>

  /**
   * What can go wrong. NotExist and IOFailure are errors the operating
   * system returns. NilInfoPanic is not a returned error: it stands for the
   * run-time panic of a walk callback that is handed a nil FileInfo.
   */
  datatype Error = NotExist | IOFailure | NilInfoPanic

  /** A directory never holds two files of the same name. */
  predicate UniqueNames(d: Dir) {
    forall i, j :: 0 <= i < j < |d| ==> d[i].name != d[j].name
  }

  /** The content of the file called fname, if d has one. */
  function Lookup(d: Dir, fname: string): (r: Option<string>)
    ensures r.Some? ==> Entry(fname, r.value) in d
    ensures r.None? ==> forall e :: e in d ==> e.name != fname
  {
    if d == [] then None
    else if d[0].name == fname then Some(d[0].content)
    else Lookup(d[1..], fname)
  }

  /**
   * The directory after WriteFile(fname, content) with O_CREATE|O_TRUNC:
   * an existing file of that name is overwritten in place, otherwise a new
   * file is added.
   */
  function Put(d: Dir, fname: string, content: string): (r: Dir)
    ensures Lookup(r, fname) == Some(content)
    ensures forall g :: g != fname ==> Lookup(r, g) == Lookup(d, g)
    ensures forall e :: e in r ==> e.name == fname || e in d
    ensures |r| == if Lookup(d, fname).Some? then |d| else |d| + 1
  {
    if d == [] then [Entry(fname, content)]
    else if d[0].name == fname then [Entry(fname, content)] + d[1..]
    else [d[0]] + Put(d[1..], fname, content)
  }

  /** A write never makes a directory hold two files of one name. */
  lemma {:induction false} PutKeepsNamesUnique(d: Dir, fname: string, content: string)
    requires UniqueNames(d)
    ensures UniqueNames(Put(d, fname, content))
  {
    if d != [] && d[0].name != fname {
      var r, r' := Put(d, fname, content), Put(d[1..], fname, content);
      assert r == [d[0]] + r';
      PutKeepsNamesUnique(d[1..], fname, content);
      forall i, j | 0 <= i < j < |r| ensures r[i].name != r[j].name {
        assert r[j] == r'[j - 1];
        if i > 0 {
          assert r[i] == r'[i - 1];
        } else if r[j].name != fname {
          assert r[j] in r';
          assert r[j] in d[1..];
          var k :| 0 <= k < |d[1..]| && d[1..][k] == r[j];
          assert d[k + 1] == r[j];
        }
      }
    }
  }

  /** Writing the same file twice leaves what writing only the second content leaves. */
  lemma {:induction false} PutTwice(d: Dir, fname: string, c1: string, c2: string)
    ensures Put(Put(d, fname, c1), fname, c2) == Put(d, fname, c2)
  {
    if d != [] && d[0].name != fname {
      PutTwice(d[1..], fname, c1, c2);
      assert Put(d, fname, c1)[1..] == Put(d[1..], fname, c1);
    }
  }

  /** MkdirAll(root/name): the key directory exists afterwards and nothing in it changes. */
  function EnsureDir(dirs: map<Key, Dir>, k: Key): (r: map<Key, Dir>)
    ensures k in r && r.Keys == dirs.Keys + {k}
    ensures forall k' :: k' in dirs ==> r[k'] == dirs[k']
    ensures k !in dirs ==> r[k] == []
  {
    if k in dirs then dirs else dirs[k := []]
  }

  /**
   * The storage area. Failures of the operating system are passed in as a
   * fault flag per call, since they come from outside the program.
   */
  class Disk {
    var dirs: map<Key, Dir>

    ghost predicate Valid()
      reads this
    {
      forall k :: k in dirs ==> UniqueNames(dirs[k])
    }

    constructor ()
      ensures Valid() && dirs == map[]
    {
      dirs := map[];
    }

    /** os.MkdirAll for a key directory. */
    method MkdirAll(k: Key, fault: bool) returns (err: Option<Error>)
      requires Valid()
      modifies this
      ensures Valid()
      ensures err == (if fault then Some(IOFailure) else None)
      ensures dirs == if fault then old(dirs) else EnsureDir(old(dirs), k)
    {
      if fault {
        return Some(IOFailure);
      }
      dirs := EnsureDir(dirs, k);
      return None;
    }

    /**
     * WriteFile(root/name/fname, content): creates the file or truncates and
     * rewrites it. It fails with NotExist when the key directory is missing.
     */
    method WriteFile(k: Key, fname: string, content: string, fault: bool) returns (err: Option<Error>)
      requires Valid()
      modifies this
      ensures Valid()
      ensures err == (if k !in old(dirs) then Some(NotExist) else if fault then Some(IOFailure) else None)
      ensures dirs == if err.Some? then old(dirs) else old(dirs)[k := Put(old(dirs)[k], fname, content)]
    {
      if k !in dirs {
        return Some(NotExist);
      }
      if fault {
        return Some(IOFailure);
      }
      PutKeepsNamesUnique(dirs[k], fname, content);
      dirs := dirs[k := Put(dirs[k], fname, content)];
      return None;
    }

    /** ReadFile(root/name/fname): the whole content, or NotExist. */
    method ReadFile(k: Key, fname: string) returns (r: Result<string, Error>)
      ensures r.Success? ==> k in dirs && Entry(fname, r.value) in dirs[k]
      ensures r.Failure? ==> r.error == NotExist
      ensures r.Failure? <==> k !in dirs || forall e :: e in dirs[k] ==> e.name != fname
    {
      if k in dirs {
        var c := Lookup(dirs[k], fname);
        if c.Some? {
          return Success(c.value);
        }
      }
      return Failure(NotExist);
    }
  }
}
