/**
 * TimeSlice: the list of revision times of one document, with the methods
 * sort.Sort needs. Less puts the newer time first, so sorting orders the
 * slice from newest to oldest.
 */
module TimeSlices {
  import opened Decimal

  /** Seconds from 1 January of year 1 to the Unix epoch: time.Unix adds them to a Unix second. */
  const UnixToInternal: int := 62135596800

  /** The largest Unix second whose stored seconds still fit in an int64. */
  const MaxUnwrapped: int := MaxInt64 - UnixToInternal

  /**
   * The seconds a time.Time made by time.Unix(u, 0) stores and compares:
   * u + UnixToInternal in int64 arithmetic, which wraps past MaxInt64.
   */
  function InternalSec(u: Int64): Int64 {
    var x := u + UnixToInternal;
    if x > MaxInt64 then x - 0x1_0000_0000_0000_0000 else x
  }

  /** Distinct Unix seconds are distinct instants, wrapped or not. */
  lemma InternalSecInjective(a: Int64, b: Int64)
    ensures InternalSec(a) == InternalSec(b) ==> a == b
  {
  }

  /**
   * time.Time.After on times made by time.Unix(u, 0): the later of the
   * stored seconds. For ordinary seconds that is the later Unix second; a
   * second past MaxUnwrapped wraps and comes before every ordinary one.
   */
  predicate After(a: Int64, b: Int64)
    ensures a <= MaxUnwrapped && b <= MaxUnwrapped ==> (After(a, b) <==> a > b)
    ensures a <= MaxUnwrapped < b ==> After(a, b)
  {
    InternalSec(a) > InternalSec(b)
  }

  /** Newest first: no time is After one before it. */
  predicate NewestFirst(s: seq<Int64>) {
    forall i, j :: 0 <= i < j < |s| ==> !After(s[j], s[i])
  }

  /** s with the elements at i and j exchanged. */
  function Swapped(s: seq<Int64>, i: nat, j: nat): (r: seq<Int64>)
    requires i < |s| && j < |s|
    ensures |r| == |s| && r[i] == s[j] && r[j] == s[i]
    ensures forall k :: 0 <= k < |s| && k != i && k != j ==> r[k] == s[k]
  {
    s[i := s[j]][j := s[i]]
  }

  /** Exchanging two elements keeps the same times: it is a permutation. */
  lemma SwappedPermutes(s: seq<Int64>, i: nat, j: nat)
    requires i < |s| && j < |s|
    ensures multiset(Swapped(s, i, j)) == multiset(s)
  {
  }

  /** Swap is its own inverse. */
  lemma SwappedTwice(s: seq<Int64>, i: nat, j: nat)
    requires i < |s| && j < |s|
    ensures Swapped(Swapped(s, i, j), i, j) == s
  {
  }

  /** Checking neighbours is enough: a slice is newest first when each element is at least its successor. */
  lemma {:induction false} NewestFirstIffAdjacent(s: seq<Int64>)
    ensures NewestFirst(s) <==> forall k :: 0 <= k < |s| - 1 ==> !After(s[k + 1], s[k])
    decreases |s|
  {
    if (forall k :: 0 <= k < |s| - 1 ==> !After(s[k + 1], s[k])) && |s| > 1 {
      NewestFirstIffAdjacent(s[1..]);
      assert forall k :: 0 <= k < |s[1..]| - 1 ==> !After(s[1..][k + 1], s[1..][k]);
      forall i, j | 0 <= i < j < |s| ensures !After(s[j], s[i]) {
        if i > 0 {
          assert s[i] == s[1..][i - 1] && s[j] == s[1..][j - 1];
        } else {
          assert !After(s[1], s[0]);
          if j > 1 {
            assert s[1] == s[1..][0] && s[j] == s[1..][j - 1];
          }
        }
      }
    }
  }

  /** The first element of a newest-first slice is the latest of the times it holds. */
  lemma FirstIsLatest(s: seq<Int64>, times: multiset<Int64>)
    requires NewestFirst(s) && s != [] && multiset(s) == times
    ensures s[0] in times
    ensures forall t :: t in times ==> !After(t, s[0])
  {
    forall t | t in times ensures !After(t, s[0]) {
      assert t in multiset(s);
      var k :| 0 <= k < |s| && s[k] == t;
      assert k == 0 || !After(s[k], s[0]);
    }
  }

  class TimeSlice {
    var elems: array<Int64>
    var len: nat

    ghost predicate Valid()
      reads this
    {
      len <= elems.Length
    }

    /** The slice's contents; elements past len belong to spare capacity. */
    ghost function Elements(): seq<Int64>
      reads this, elems
      requires Valid()
    {
      elems[..len]
    }

    /** new(TimeSlice): the empty slice. */
    constructor ()
      ensures Valid() && Elements() == [] && fresh(elems)
    {
      elems := new Int64[0];
      len := 0;
    }

    /**
     * Append: the slice grows by one and t is last. A full backing array is
     * replaced by a larger fresh one; the growth factor is not Go's.
     */
    method Append(t: Int64)
      requires Valid()
      modifies this, elems
      ensures Valid() && Elements() == old(Elements()) + [t]
      ensures elems == old(elems) || fresh(elems)
    {
      if len == elems.Length {
        var old_elems := elems;
        var grown := new Int64[2 * len + 1](k reads old_elems => if 0 <= k < old_elems.Length then old_elems[k] else t);
        elems := grown;
      }
      elems[len] := t;
      len := len + 1;
    }

    function Len(): (n: int)
      reads this, elems
      requires Valid()
      ensures n == |Elements()|
    {
      len
    }

    /** Less(i, j): the time at i is strictly later than the time at j. */
    predicate Less(i: int, j: int)
      reads this, elems
      requires Valid() && 0 <= i < len && 0 <= j < len
      ensures Less(i, j) <==> After(Elements()[i], Elements()[j])
    {
      After(elems[i], elems[j])
    }

    /** Swap exchanges two positions and touches nothing else. */
    method Swap(i: int, j: int)
      requires Valid() && 0 <= i < len && 0 <= j < len
      modifies elems
      ensures Valid() && Elements() == Swapped(old(Elements()), i, j)
      ensures multiset(Elements()) == multiset(old(Elements()))
    {
      elems[i], elems[j] := elems[j], elems[i];
      assert Elements() == Swapped(old(Elements()), i, j);
      SwappedPermutes(old(Elements()), i, j);
    }

    /**
     * sort.Sort(ts): insertion sort driven only by Less and Swap, the
     * algorithm Go's sort package runs on short slices. The result is newest
     * first and holds the same times.
     */
    method Sort()
      requires Valid()
      modifies elems
      ensures Valid() && NewestFirst(Elements())
      ensures multiset(Elements()) == multiset(old(Elements()))
    {
      if len == 0 {
        return;
      }
      var i := 1;
      while i < len
        invariant Valid() && 1 <= i <= len
        invariant forall a, b :: 0 <= a < b < i ==> !After(elems[b], elems[a])
        invariant multiset(Elements()) == multiset(old(Elements()))
      {
        Insert(i);
        i := i + 1;
      }
    }

    /**
     * One pass of the insertion sort: the time at i moves towards the front,
     * swapped past every older neighbour, until elems[..i + 1] is newest first.
     */
    method Insert(i: int)
      requires Valid() && 0 < i < len
      requires forall a, b :: 0 <= a < b < i ==> !After(elems[b], elems[a])
      modifies elems
      ensures Valid()
      ensures forall a, b :: 0 <= a < b <= i ==> !After(elems[b], elems[a])
      ensures multiset(Elements()) == multiset(old(Elements()))
    {
      var j := i;
      while j > 0 && Less(j, j - 1)
        invariant Valid()
        invariant 0 <= j <= i
        invariant forall a, b :: 0 <= a < b <= i && a != j && b != j ==> !After(elems[b], elems[a])
        invariant forall b :: j < b <= i ==> After(elems[j], elems[b])
        invariant 0 < j < i ==> !After(elems[j + 1], elems[j - 1])
        invariant multiset(Elements()) == multiset(old(Elements()))
      {
        ghost var before := elems[..len];
        Swap(j, j - 1);
        forall a, b | 0 <= a < b <= i && a != j - 1 && b != j - 1
          ensures !After(elems[b], elems[a])
        {
          if a == j {
            assert elems[a] == before[j - 1] && elems[b] == before[b];
          } else if b == j {
            assert elems[b] == before[j - 1] && elems[a] == before[a];
          } else {
            assert elems[a] == before[a] && elems[b] == before[b];
          }
        }
        j := j - 1;
      }
    }
  }

  /**
   * Less is a strict order, and a total one: two positions are unordered
   * both ways exactly when they hold the same time.
   */
  lemma LessIsStrict(ts: TimeSlice, i: int, j: int, k: int)
    requires ts.Valid() && 0 <= i < ts.len && 0 <= j < ts.len && 0 <= k < ts.len
    ensures !ts.Less(i, i)
    ensures ts.Less(i, j) ==> !ts.Less(j, i)
    ensures ts.Less(i, j) && ts.Less(j, k) ==> ts.Less(i, k)
    ensures ts.elems[i] == ts.elems[j] <==> !ts.Less(i, j) && !ts.Less(j, i)
  {
    InternalSecInjective(ts.elems[i], ts.elems[j]);
  }
}
