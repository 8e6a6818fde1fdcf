/**
 * The logical document: the base file with every overlay entry spliced in
 * place of the byte at its anchor. `write_data` (model/model.py:46-68)
 * produces it by walking the anchors in increasing order; as written it
 * advances the read cursor in the base file by the entry's length instead
 * of by the one base byte the entry replaces.
 */
module Document {
  import opened Bytes

  /** What the document holds for base offset p: its entry, or the base byte. */
  function Cell(base: seq<Byte>, ext: Overlay, p: int): (c: seq<Byte>)
    requires 0 <= p < |base|
    ensures |c| == Width(ext, p)
  {
    if p in ext then ext[p] else [base[p]]
  }

  /** The document section produced by base offsets [lo, hi). */
  function DocRange(base: seq<Byte>, ext: Overlay, lo: int, hi: int): seq<Byte>
    requires 0 <= lo && hi <= |base|
    decreases hi - lo
  {
    if lo >= hi then [] else Cell(base, ext, lo) + DocRange(base, ext, lo + 1, hi)
  }

  function LogicalDocument(base: seq<Byte>, ext: Overlay): seq<Byte>
  {
    DocRange(base, ext, 0, |base|)
  }

  /** All anchors lie inside the base file. */
  predicate AnchorsInBase(base: seq<Byte>, ext: Overlay)
  {
    forall k :: k in ext ==> 0 <= k < |base|
  }

  /** `file.read(n)` after `seek(lo)`: base bytes [lo, hi), cut at the end of the file. */
  function Read(base: seq<Byte>, lo: int, hi: int): (r: seq<Byte>)
    ensures 0 <= lo <= hi <= |base| ==> r == base[lo..hi]
  {
    var a := Clamp(lo, |base|);
    var b := Clamp(hi, |base|);
    if a <= b then base[a..b] else []
  }

  /**
   * write_data as written (model/model.py:53-68), from read cursor cur over
   * the remaining anchors: the base bytes up to the anchor, the entry, then
   * the cursor moves on by the entry's length.
   */
  function WriteFrom(base: seq<Byte>, ext: Overlay, keys: seq<int>, cur: int): seq<Byte>
    requires forall i :: 0 <= i < |keys| ==> keys[i] in ext
    decreases |keys|
  {
    if keys == [] then Read(base, cur, |base|)
    else
      var pos := keys[0];
      var chunk := if cur < pos then Read(base, cur, pos) else [];
      var next := (if cur < pos then pos else cur) + |ext[pos]|;
      chunk + ext[pos] + WriteFrom(base, ext, keys[1..], next)
  }

  function SaveAsWritten(base: seq<Byte>, ext: Overlay): seq<Byte>
  {
    WriteFrom(base, ext, SortedSeq(ext.Keys), 0)
  }

  /** The same walk with the cursor moving past the one base byte each entry replaces. */
  function WriteFixedFrom(base: seq<Byte>, ext: Overlay, keys: seq<int>, cur: int): seq<Byte>
    requires forall i :: 0 <= i < |keys| ==> keys[i] in ext
    decreases |keys|
  {
    if keys == [] then Read(base, cur, |base|)
    else
      var pos := keys[0];
      var chunk := if cur < pos then Read(base, cur, pos) else [];
      var next := (if cur < pos then pos else cur) + 1;
      chunk + ext[pos] + WriteFixedFrom(base, ext, keys[1..], next)
  }

  function SaveFixed(base: seq<Byte>, ext: Overlay): seq<Byte>
  {
    WriteFixedFrom(base, ext, SortedSeq(ext.Keys), 0)
  }

  // -----------------------------------------------------------------------
  // The logical document
  // -----------------------------------------------------------------------

  lemma {:induction false} DocSplit(base: seq<Byte>, ext: Overlay, lo: int, mid: int, hi: int)
    requires 0 <= lo <= mid <= hi <= |base|
    ensures DocRange(base, ext, lo, hi) == DocRange(base, ext, lo, mid) + DocRange(base, ext, mid, hi)
    decreases mid - lo
  {
    if lo < mid {
      DocSplit(base, ext, lo + 1, mid, hi);
      Regroup(Cell(base, ext, lo), DocRange(base, ext, lo + 1, mid), DocRange(base, ext, mid, hi));
    }
  }

  /** The section grows by one cell at its end. */
  lemma DocStep(base: seq<Byte>, ext: Overlay, lo: int, hi: int)
    requires 0 <= lo <= hi < |base|
    ensures DocRange(base, ext, lo, hi + 1) == DocRange(base, ext, lo, hi) + Cell(base, ext, hi)
  {
    DocSplit(base, ext, lo, hi, hi + 1);
    assert DocRange(base, ext, hi, hi + 1) == Cell(base, ext, hi) + [];
  }

  /** Without anchors in [lo, hi) the section is the base bytes there. */
  lemma {:induction false} DocPlain(base: seq<Byte>, ext: Overlay, lo: int, hi: int)
    requires 0 <= lo <= hi <= |base|
    requires forall k :: k in ext ==> !(lo <= k < hi)
    ensures DocRange(base, ext, lo, hi) == base[lo..hi]
    decreases hi - lo
  {
    if lo < hi {
      DocPlain(base, ext, lo + 1, hi);
      assert base[lo..hi] == [base[lo]] + base[lo + 1..hi];
    }
  }

  /** The document up to base offset n has LogicalPrefix(ext, n) bytes: get_position is an offset in it. */
  lemma {:induction false} DocPrefixLength(base: seq<Byte>, ext: Overlay, n: int)
    requires 0 <= n <= |base|
    ensures |DocRange(base, ext, 0, n)| == LogicalPrefix(ext, n)
    decreases n
  {
    if n > 0 {
      DocPrefixLength(base, ext, n - 1);
      DocSplit(base, ext, 0, n - 1, n);
    }
  }

  /** The document is as long as the base plus what the entries add: get_size's formula. */
  lemma DocumentSize(base: seq<Byte>, ext: Overlay)
    requires AnchorsInBase(base, ext)
    ensures |LogicalDocument(base, ext)| == |base| + Extra(ext)
  {
    DocPrefixLength(base, ext, |base|);
    LogicalPrefixIsExtra(ext, |base|);
    assert Below(ext, |base|) == ext;
  }

  /** Overwrites only: the document keeps the base's length and byte i is the new byte at i. */
  lemma {:induction false} DocOverwrites(base: seq<Byte>, ext: Overlay, lo: int, hi: int)
    requires 0 <= lo <= hi <= |base|
    requires forall k :: k in ext ==> |ext[k]| == 1
    ensures |DocRange(base, ext, lo, hi)| == hi - lo
    ensures forall i :: lo <= i < hi ==>
      DocRange(base, ext, lo, hi)[i - lo] == if i in ext then ext[i][0] else base[i]
    decreases hi - lo
  {
    if lo < hi {
      DocOverwrites(base, ext, lo + 1, hi);
      var c := Cell(base, ext, lo);
      var r := DocRange(base, ext, lo + 1, hi);
      var d := DocRange(base, ext, lo, hi);
      assert d == c + r;
      forall i | lo <= i < hi
        ensures d[i - lo] == if i in ext then ext[i][0] else base[i]
      {
        if i > lo {
          assert d[i - lo] == r[i - (lo + 1)];
        }
      }
    }
  }

  // -----------------------------------------------------------------------
  // Saving
  // -----------------------------------------------------------------------

  /** The anchors at or after cur, in increasing order. */
  ghost predicate KeysFrom(ext: Overlay, keys: seq<int>, cur: int)
  {
    && StrictlySorted(keys)
    && forall k :: k in keys <==> k in ext && k >= cur
  }

  /** The first remaining anchor is the least anchor at or after cur. */
  lemma KeysFromHead(ext: Overlay, keys: seq<int>, cur: int)
    requires KeysFrom(ext, keys, cur) && keys != []
    ensures keys[0] in ext && cur <= keys[0]
    ensures forall k :: k in ext && cur <= k ==> keys[0] <= k
  {
    assert keys[0] in keys;
    forall k | k in ext && cur <= k
      ensures keys[0] <= k
    {
      assert k in keys;
      var j :| 0 <= j < |keys| && keys[j] == k;
      assert j > 0 ==> keys[0] < keys[j];
    }
  }

  lemma KeysFromTail(ext: Overlay, keys: seq<int>, cur: int)
    requires KeysFrom(ext, keys, cur) && keys != []
    ensures KeysFrom(ext, keys[1..], keys[0] + 1)
  {
    var rest := keys[1..];
    var pos := keys[0];
    assert pos in keys;
    forall k
      ensures k in rest <==> k in ext && k >= pos + 1
    {
      if k in rest {
        var j :| 0 <= j < |rest| && rest[j] == k;
        assert keys[j + 1] == k && keys[0] < keys[j + 1];
      }
      if k in ext && k >= pos + 1 {
        assert k in keys;
        var j :| 0 <= j < |keys| && keys[j] == k;
        assert j != 0;
        assert rest[j - 1] == k;
      }
    }
  }

  lemma FixedFromUnfold(base: seq<Byte>, ext: Overlay, keys: seq<int>, cur: int)
    requires 0 <= cur && keys != [] && cur <= keys[0] <= |base|
    requires forall i :: 0 <= i < |keys| ==> keys[i] in ext
    ensures WriteFixedFrom(base, ext, keys, cur)
      == base[cur..keys[0]] + ext[keys[0]] + WriteFixedFrom(base, ext, keys[1..], keys[0] + 1)
  {
    var pos := keys[0];
    var chunk := if cur < pos then Read(base, cur, pos) else [];
    assert chunk == base[cur..pos];
  }

  lemma DocUnfold(base: seq<Byte>, ext: Overlay, lo: int, hi: int)
    requires 0 <= lo < hi <= |base| && lo in ext
    ensures DocRange(base, ext, lo, hi) == ext[lo] + DocRange(base, ext, lo + 1, hi)
  {
  }

  /** One anchor of the corrected walk: base bytes up to it, its entry, then the rest of the document. */
  lemma FixedFromStep(base: seq<Byte>, ext: Overlay, keys: seq<int>, cur: int)
    requires 0 <= cur && keys != [] && cur <= keys[0] < |base|
    requires forall i :: 0 <= i < |keys| ==> keys[i] in ext
    requires forall k :: k in ext && cur <= k ==> keys[0] <= k
    requires WriteFixedFrom(base, ext, keys[1..], keys[0] + 1) == DocRange(base, ext, keys[0] + 1, |base|)
    ensures WriteFixedFrom(base, ext, keys, cur) == DocRange(base, ext, cur, |base|)
  {
    var pos := keys[0];
    var rest := WriteFixedFrom(base, ext, keys[1..], pos + 1);
    var plain := base[cur..pos];
    assert WriteFixedFrom(base, ext, keys, cur) == plain + ext[pos] + rest by {
      FixedFromUnfold(base, ext, keys, cur);
    }
    assert DocRange(base, ext, cur, |base|) == plain + DocRange(base, ext, pos, |base|) by {
      DocPlain(base, ext, cur, pos);
      DocSplit(base, ext, cur, pos, |base|);
    }
    assert DocRange(base, ext, pos, |base|) == ext[pos] + rest by {
      DocUnfold(base, ext, pos, |base|);
    }
    Regroup(plain, ext[pos], rest);
  }

  /** Concatenation regrouped, in a context of its own. */
  lemma Regroup(a: seq<Byte>, b: seq<Byte>, c: seq<Byte>)
    ensures a + b + c == a + (b + c)
  {
  }

  /** With the cursor moving by one, saving from cur writes the document from cur on. */
  lemma {:induction false} FixedFromIsDoc(base: seq<Byte>, ext: Overlay, keys: seq<int>, cur: int)
    requires AnchorsInBase(base, ext) && 0 <= cur <= |base|
    requires KeysFrom(ext, keys, cur)
    ensures forall i :: 0 <= i < |keys| ==> keys[i] in ext
    ensures WriteFixedFrom(base, ext, keys, cur) == DocRange(base, ext, cur, |base|)
    decreases |keys|
  {
    assert forall i :: 0 <= i < |keys| ==> keys[i] in keys;
    if keys == [] {
      DocPlain(base, ext, cur, |base|);
    } else {
      KeysFromHead(ext, keys, cur);
      KeysFromTail(ext, keys, cur);
      FixedFromIsDoc(base, ext, keys[1..], keys[0] + 1);
      assert keys[0] < |base|;
      FixedFromStep(base, ext, keys, cur);
    }
  }

  /** Corrected save: anchors inside the file give exactly the logical document. */
  lemma SaveFixedIsDocument(base: seq<Byte>, ext: Overlay)
    requires AnchorsInBase(base, ext)
    ensures SaveFixed(base, ext) == LogicalDocument(base, ext)
    ensures |SaveFixed(base, ext)| == |base| + Extra(ext)
  {
    FixedFromIsDoc(base, ext, SortedSeq(ext.Keys), 0);
    DocumentSize(base, ext);
  }

  /** One-byte entries make the two walks agree: the cursor moves by 1 either way. */
  lemma {:induction false} OverwritesSaveAlike(base: seq<Byte>, ext: Overlay, keys: seq<int>, cur: int)
    requires forall i :: 0 <= i < |keys| ==> keys[i] in ext
    requires forall k :: k in ext ==> |ext[k]| == 1
    ensures WriteFrom(base, ext, keys, cur) == WriteFixedFrom(base, ext, keys, cur)
    decreases |keys|
  {
    if keys != [] {
      var pos := keys[0];
      var next := (if cur < pos then pos else cur) + 1;
      OverwritesSaveAlike(base, ext, keys[1..], next);
    }
  }

  /** Without edits the save reproduces the base file byte for byte. */
  lemma SaveNoEdits(base: seq<Byte>)
    ensures SaveAsWritten(base, map[]) == base
  {
    var m: Overlay := map[];
    assert SortedSeq(m.Keys) == [];
  }

  /**
   * With only overwrites inside the file, the save as written has the base's
   * length and holds the new byte at every anchor, the base byte elsewhere.
   */
  lemma SaveOverwrites(base: seq<Byte>, ext: Overlay)
    requires AnchorsInBase(base, ext)
    requires forall k :: k in ext ==> |ext[k]| == 1
    ensures |SaveAsWritten(base, ext)| == |base|
    ensures forall i :: 0 <= i < |base| ==> SaveAsWritten(base, ext)[i] == if i in ext then ext[i][0] else base[i]
  {
    var keys := SortedSeq(ext.Keys);
    OverwritesSaveAlike(base, ext, keys, 0);
    SaveFixedIsDocument(base, ext);
    DocOverwrites(base, ext, 0, |base|);
  }

  // -----------------------------------------------------------------------
  // The cursor advance of write_data
  // -----------------------------------------------------------------------

  lemma SortedSingleton(k: int)
    ensures SortedSeq({k}) == [k]
  {
    var s := SortedSeq({k});
    assert |s| == 1 && s[0] in {k};
  }

  /** A deleted first byte reappears when saving: "AB" with byte 0 deleted saves as "AB", not "B". */
  lemma DeletedByteReappears()
    ensures SaveAsWritten([0x41, 0x42], map[0 := []]) == [0x41, 0x42]
    ensures SaveFixed([0x41, 0x42], map[0 := []]) == [0x42]
    ensures LogicalDocument([0x41, 0x42], map[0 := []]) == [0x42]
  {
    SortedSingleton(0);
    var m: Overlay := map[0 := []];
    assert m.Keys == {0};
    SaveFixedIsDocument([0x41, 0x42], map[0 := []]);
  }

  /** An insertion swallows base bytes: [1, 2, 3] with 9 inserted before 1 saves as [9, 1, 3]. */
  lemma InsertionSwallowsByte()
    ensures SaveAsWritten([1, 2, 3], map[0 := [9, 1]]) == [9, 1, 3]
    ensures SaveFixed([1, 2, 3], map[0 := [9, 1]]) == [9, 1, 2, 3]
    ensures LogicalDocument([1, 2, 3], map[0 := [9, 1]]) == [9, 1, 2, 3]
  {
    SortedSingleton(0);
    var m: Overlay := map[0 := [9, 1]];
    assert m.Keys == {0};
    SaveFixedIsDocument([1, 2, 3], map[0 := [9, 1]]);
  }
}
