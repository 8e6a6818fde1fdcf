/**
 * Shared vocabulary of the edit buffer: bytes, the overlay of pending
 * edits (anchor offset -> replacement bytes), the Python list operations
 * the engine applies to overlay entries, and the sums that give logical
 * sizes and positions.
 */
module Bytes {

  /** One byte of the document, as Python's `bytes`/`bytearray` items. */
  type Byte = x: int | 0 <= x < 256

  datatype Option<T> = None | Some(value: T)

  /**
   * The overlay: each key is an anchor offset of the base file, each value
   * the bytes that replace the single base byte there (empty: deleted,
   * one byte: overwritten, more: bytes inserted).
   */
  type Overlay = map<int, seq<Byte>>

  // ---------------------------------------------------------------------
  // Python bytearray operations on overlay entries
  // ---------------------------------------------------------------------

  /** `bytearray.insert(i, b)`: inserting past the end appends. */
  function Insert(s: seq<Byte>, i: nat, b: Byte): (r: seq<Byte>)
    ensures |r| == |s| + 1
    ensures var j := if i <= |s| then i else |s|;
            r[j] == b && r[..j] == s[..j] && r[j + 1..] == s[j..]
  {
    if i <= |s| then s[..i] + [b] + s[i..] else s + [b]
  }

  /** `bytearray.pop(i)` for an index inside the entry. */
  function PopAt(s: seq<Byte>, i: nat): (r: seq<Byte>)
    requires i < |s|
    ensures |r| == |s| - 1
    ensures r[..i] == s[..i] && r[i..] == s[i + 1..]
  {
    s[..i] + s[i + 1..]
  }

  /** `bytearray[i] = b` for an index inside the entry. */
  function Assign(s: seq<Byte>, i: nat, b: Byte): (r: seq<Byte>)
    requires i < |s|
    ensures |r| == |s| && r[i] == b
    ensures forall j :: 0 <= j < |s| && j != i ==> r[j] == s[j]
  {
    s[i := b]
  }

  lemma {:induction false} PopAfterInsert(s: seq<Byte>, i: nat, b: Byte)
    requires i <= |s|
    ensures PopAt(Insert(s, i, b), i) == s
  {
    var t := Insert(s, i, b);
    assert t == s[..i] + [b] + s[i..];
    assert t[..i] == s[..i];
    assert t[i + 1..] == s[i..];
    assert PopAt(t, i) == s[..i] + s[i..];
    assert s[..i] + s[i..] == s;
  }

  lemma {:induction false} InsertAfterPop(s: seq<Byte>, i: nat)
    requires i < |s|
    ensures Insert(PopAt(s, i), i, s[i]) == s
  {
    var t := PopAt(s, i);
    assert t[..i] == s[..i] && t[i..] == s[i + 1..];
    assert Insert(t, i, s[i]) == t[..i] + [s[i]] + t[i..];
    assert s == s[..i] + [s[i]] + s[i + 1..];
  }

  /** Python slice `s[a:b]`, negative bounds counted from the end. */
  function PySlice<T>(s: seq<T>, a: int, b: int): (r: seq<T>)
    ensures |r| <= |s|
    ensures 0 <= a < b <= |s| ==> r == s[a..b]
  {
    var lo := Clamp(if a < 0 then a + |s| else a, |s|);
    var hi := Clamp(if b < 0 then b + |s| else b, |s|);
    if lo < hi then s[lo..hi] else []
  }

  function Clamp(i: int, n: nat): (r: nat)
    ensures r <= n
    ensures 0 <= i <= n ==> r == i
  {
    if i < 0 then 0 else if i > n then n else i
  }

  // ---------------------------------------------------------------------
  // Overlay sums
  // ---------------------------------------------------------------------

  /** Number of logical bytes produced at base offset k. */
  function Width(ext: Overlay, k: int): (w: nat)
    ensures k !in ext ==> w == 1
  {
    if k in ext then |ext[k]| else 1
  }

  /** Sum of |entry| - 1 over all overlay entries: what the edits add to the size. */
  ghost function Extra(m: Overlay): int
    decreases |m|
  {
    if m == map[] then 0
    else
      HasKey(m);
      var k :| k in m;
      |m[k]| - 1 + Extra(m - {k})
  }

  lemma HasKey(m: Overlay)
    requires m != map[]
    ensures exists k :: k in m
  {
    assert (forall k :: k !in m) ==> m == map[];
  }

  lemma HasElement(s: set<int>)
    requires s != {}
    ensures exists x :: x in s
  {
    assert (forall x :: x !in s) ==> s == {};
  }

  lemma RemoveKeyCard(m: Overlay, k: int)
    requires k in m
    ensures |m - {k}| == |m| - 1
  {
    assert (m - {k}).Keys == m.Keys - {k};
  }

  /** Extra does not depend on the order in which entries are visited. */
  lemma {:induction false} ExtraRemove(m: Overlay, k: int)
    requires k in m
    ensures Extra(m) == |m[k]| - 1 + Extra(m - {k})
    decreases |m|
  {
    RemoveKeyCard(m, k);
    assert exists j :: j in m && Extra(m) == |m[j]| - 1 + Extra(m - {j});
    var j :| j in m && Extra(m) == |m[j]| - 1 + Extra(m - {j});
    if j != k {
      RemoveKeyCard(m, j);
      ExtraRemove(m - {j}, k);
      ExtraRemove(m - {k}, j);
      assert m - {j} - {k} == m - {k} - {j};
    }
  }

  /** Replacing or adding one entry changes Extra by the change of its length. */
  lemma ExtraUpdate(m: Overlay, k: int, v: seq<Byte>)
    ensures Extra(m[k := v]) == Extra(m) - (Width(m, k) - 1) + (|v| - 1)
  {
    ExtraRemove(m[k := v], k);
    assert m[k := v] - {k} == m - {k};
    if k in m {
      ExtraRemove(m, k);
    } else {
      assert m - {k} == m;
    }
  }

  lemma ExtraDelete(m: Overlay, k: int)
    requires k in m
    ensures Extra(m - {k}) == Extra(m) - (|m[k]| - 1)
  {
    ExtraRemove(m, k);
  }

  /**
   * Logical bytes before base offset n: every anchor i < n contributes its
   * entry's length, every other offset one byte.
   */
  function LogicalPrefix(ext: Overlay, n: int): (r: int)
    decreases n
  {
    if n <= 0 then 0 else LogicalPrefix(ext, n - 1) + Width(ext, n - 1)
  }

  /** The entries anchored in [0, n). */
  function Below(ext: Overlay, n: int): Overlay
  {
    map k | k in ext && 0 <= k < n :: ext[k]
  }

  /** The logical prefix is the base prefix plus what the edits below it add. */
  lemma {:induction false} LogicalPrefixIsExtra(ext: Overlay, n: nat)
    ensures LogicalPrefix(ext, n) == n + Extra(Below(ext, n))
  {
    if n == 0 {
      assert Below(ext, 0) == map[];
    } else {
      LogicalPrefixIsExtra(ext, n - 1);
      var lo := Below(ext, n - 1);
      assert n - 1 !in lo;
      if n - 1 in ext {
        assert Below(ext, n) == lo[n - 1 := ext[n - 1]];
        ExtraUpdate(lo, n - 1, ext[n - 1]);
      } else {
        assert Below(ext, n) == lo;
      }
    }
  }

  /** With no edits, the logical position of offset n is n. */
  lemma {:induction false} LogicalPrefixNoEdits(n: nat)
    ensures LogicalPrefix(map[], n) == n
  {
    if n > 0 {
      LogicalPrefixNoEdits(n - 1);
    }
  }

  // ---------------------------------------------------------------------
  // sorted(...) over a set of integers
  // ---------------------------------------------------------------------

  predicate StrictlySorted(s: seq<int>)
  {
    forall i, j :: 0 <= i < j < |s| ==> s[i] < s[j]
  }

  lemma {:induction false} MinExists(s: set<int>)
    requires s != {}
    ensures exists m :: m in s && forall x :: x in s ==> m <= x
    decreases |s|
  {
    HasElement(s);
    var x :| x in s;
    if s != {x} {
      MinExists(s - {x});
      var y :| y in s - {x} && forall z :: z in s - {x} ==> y <= z;
      var m := if x < y then x else y;
      forall z | z in s
        ensures m <= z
      {
        if z != x {
          assert z in s - {x};
        }
      }
      assert m in s;
    } else {
      assert forall z :: z in s ==> z == x;
    }
  }

  function SetMin(s: set<int>): (m: int)
    requires s != {}
    ensures m in s && forall x :: x in s ==> m <= x
  {
    MinExists(s);
    var m :| m in s && forall x :: x in s ==> m <= x;
    m
  }

  /** Python's `sorted(s)` of a set: its elements in increasing order. */
  function SortedSeq(s: set<int>): (r: seq<int>)
    ensures StrictlySorted(r)
    ensures forall x :: x in r <==> x in s
    ensures |r| == |s|
    decreases |s|
  {
    if s == {} then []
    else
      var m := SetMin(s);
      var rest := SortedSeq(s - {m});
      assert forall x :: x in rest ==> m < x;
      [m] + rest
  }
}
