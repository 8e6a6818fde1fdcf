/**
 * The undo/redo log of the edit buffer (model/logging.py). A Logger owns
 * the overlay of pending edits (the dictionary it shares with the buffer)
 * and two LIFO stacks of records. Undo and redo replay a record's inverse
 * or forward effect on the overlay in place.
 */
module EditLog {
  import opened Bytes

  /**
   * One primitive edit: the anchor it touched, a snapshot of the anchor's
   * entry before the edit (None when the anchor had no entry), the byte(s)
   * it introduced, its position inside the entry and whether it is flagged
   * as an insertion.
   */
  datatype LogRecord = LogRecord(
    index: int,
    oldExtend: Option<seq<Byte>>,
    newByte: seq<Byte>,
    shift: nat,
    isInsert: bool)

  /** `entry.pop(i)` on the entry at k, dropping the key when it becomes empty. */
  function RemoveAt(ext: Overlay, k: int, i: nat): (r: Overlay)
    requires k in ext && i < |ext[k]|
    ensures |ext[k]| == 1 ==> r == ext - {k}
    ensures |ext[k]| > 1 ==> r == ext[k := PopAt(ext[k], i)]
  {
    var e := PopAt(ext[k], i);
    if e == [] then ext - {k} else ext[k := e]
  }

  /** `entry.insert(i, b)` on the entry at k, or a fresh one-byte entry when k is absent. */
  function InsertAt(ext: Overlay, k: int, i: nat, b: Byte): (r: Overlay)
    ensures k in r && r.Keys == ext.Keys + {k}
    ensures |r[k]| == Width(ext, k) + (if k in ext then 1 else 0)
    ensures forall j :: j in ext && j != k ==> r[j] == ext[j]
  {
    if k in ext then ext[k := Insert(ext[k], i, b)] else ext[k := [b]]
  }

  /** Undo does not raise: the popped index exists, the snapshot byte exists. */
  predicate CanUndo(ext: Overlay, r: LogRecord)
  {
    if r.isInsert then r.index in ext ==> r.shift < |ext[r.index]|
    else r.oldExtend.Some? && r.shift < |r.oldExtend.value|
  }

  /**
   * Overlay after undoing r (model/logging.py:64-75): an insert record pops
   * the byte at shift (nothing when the anchor has no entry); any other
   * record reinserts the snapshot's byte at shift.
   */
  function UndoOverlay(ext: Overlay, r: LogRecord): (res: Overlay)
    requires CanUndo(ext, r)
    ensures r.isInsert && r.index !in ext ==> res == ext
    ensures !r.isInsert ==> r.index in res && res.Keys == ext.Keys + {r.index}
  {
    if r.isInsert then
      if r.index in ext then RemoveAt(ext, r.index, r.shift) else ext
    else
      InsertAt(ext, r.index, r.shift, r.oldExtend.value[r.shift])
  }

  /** Redo does not raise: an insert record has a byte, any other record's entry has index shift. */
  predicate CanRedo(ext: Overlay, r: LogRecord)
  {
    if r.isInsert then |r.newByte| > 0
    else r.index in ext && r.shift < |ext[r.index]|
  }

  /**
   * Overlay after redoing r (model/logging.py:83-92): an insert record
   * inserts its first byte at shift; any other record pops the byte at shift.
   */
  function RedoOverlay(ext: Overlay, r: LogRecord): (res: Overlay)
    requires CanRedo(ext, r)
    ensures r.isInsert ==> r.index in res
    ensures !r.isInsert ==> res.Keys <= ext.Keys
  {
    if r.isInsert then InsertAt(ext, r.index, r.shift, r.newByte[0])
    else RemoveAt(ext, r.index, r.shift)
  }

  class Logger {
    /** The overlay, shared with the buffer that edits it. */
    var extended: Overlay
    var undoStack: seq<LogRecord>
    var redoStack: seq<LogRecord>

    constructor (ext: Overlay)
      ensures extended == ext && undoStack == [] && redoStack == []
    {
      extended := ext;
      undoStack := [];
      redoStack := [];
    }

    /** Records an edit the caller has already applied; history becomes linear again. */
    method Add(r: LogRecord)
      modifies this
      ensures extended == old(extended)
      ensures undoStack == old(undoStack) + [r]
      ensures redoStack == []
    {
      undoStack := undoStack + [r];
      redoStack := [];
    }

    method Undo()
      requires undoStack != [] ==> CanUndo(extended, undoStack[|undoStack| - 1])
      modifies this
      ensures old(undoStack) == [] ==>
        extended == old(extended) && undoStack == [] && redoStack == old(redoStack)
      ensures old(undoStack) != [] ==>
        var r := old(undoStack)[|old(undoStack)| - 1];
        && undoStack == old(undoStack)[..|old(undoStack)| - 1]
        && redoStack == old(redoStack) + [r]
        && extended == UndoOverlay(old(extended), r)
    {
      if undoStack == [] {
        return;
      }
      var log := undoStack[|undoStack| - 1];
      undoStack := undoStack[..|undoStack| - 1];
      if log.isInsert {
        if log.index in extended {
          extended := extended[log.index := PopAt(extended[log.index], log.shift)];
          if extended[log.index] == [] {
            extended := extended - {log.index};
          }
        }
      } else {
        if log.index in extended {
          extended := extended[log.index := Insert(extended[log.index], log.shift, log.oldExtend.value[log.shift])];
        } else {
          extended := extended[log.index := [log.oldExtend.value[log.shift]]];
        }
      }
      redoStack := redoStack + [log];
    }

    method Redo()
      requires redoStack != [] ==> CanRedo(extended, redoStack[|redoStack| - 1])
      modifies this
      ensures old(redoStack) == [] ==>
        extended == old(extended) && redoStack == [] && undoStack == old(undoStack)
      ensures old(redoStack) != [] ==>
        var r := old(redoStack)[|old(redoStack)| - 1];
        && redoStack == old(redoStack)[..|old(redoStack)| - 1]
        && undoStack == old(undoStack) + [r]
        && extended == RedoOverlay(old(extended), r)
    {
      if redoStack == [] {
        return;
      }
      var log := redoStack[|redoStack| - 1];
      redoStack := redoStack[..|redoStack| - 1];
      if log.isInsert {
        if log.index in extended {
          extended := extended[log.index := Insert(extended[log.index], log.shift, log.newByte[0])];
        } else {
          extended := extended[log.index := [log.newByte[0]]];
        }
      } else {
        extended := extended[log.index := PopAt(extended[log.index], log.shift)];
        if extended[log.index] == [] {
          extended := extended - {log.index};
        }
      }
      undoStack := undoStack + [log];
    }
  }

  // -----------------------------------------------------------------------
  // What undo and redo do to the overlay
  // -----------------------------------------------------------------------

  /**
   * Undoing an insert record removes one logical byte from an entry of two
   * or more bytes; popping a one-byte entry drops the key, so the base byte
   * shows again and the size is unchanged, as it is when the anchor has no entry.
   */
  lemma UndoInsertSize(ext: Overlay, r: LogRecord)
    requires r.isInsert && CanUndo(ext, r)
    ensures Extra(UndoOverlay(ext, r)) == Extra(ext) - (if r.index in ext && |ext[r.index]| > 1 then 1 else 0)
  {
    if r.index in ext {
      var e := PopAt(ext[r.index], r.shift);
      if e == [] {
        ExtraDelete(ext, r.index);
      } else {
        ExtraUpdate(ext, r.index, e);
      }
    }
  }

  /**
   * Undoing any other record adds one logical byte to an existing entry; on
   * an anchor without entry it overwrites the base byte, keeping the size.
   */
  lemma UndoDeleteSize(ext: Overlay, r: LogRecord)
    requires !r.isInsert && CanUndo(ext, r)
    ensures Extra(UndoOverlay(ext, r)) == Extra(ext) + (if r.index in ext then 1 else 0)
  {
    var b := r.oldExtend.value[r.shift];
    if r.index in ext {
      ExtraUpdate(ext, r.index, Insert(ext[r.index], r.shift, b));
    } else {
      ExtraUpdate(ext, r.index, [b]);
    }
  }

  /**
   * An insert record whose byte sits at its shift in the entry: undo then
   * redo gives the overlay back, e.g. {0: [1]} -> {} -> {0: [1]}.
   */
  lemma {:induction false} RedoUndoInsert(ext: Overlay, r: LogRecord)
    requires r.isInsert && |r.newByte| > 0
    requires r.index in ext && r.shift < |ext[r.index]|
    requires ext[r.index][r.shift] == r.newByte[0]
    ensures CanUndo(ext, r)
    ensures CanRedo(UndoOverlay(ext, r), r)
    ensures RedoOverlay(UndoOverlay(ext, r), r) == ext
  {
    var e := ext[r.index];
    var u := UndoOverlay(ext, r);
    if |e| == 1 {
      assert u == ext - {r.index};
      assert RedoOverlay(u, r) == u[r.index := [r.newByte[0]]];
      assert [r.newByte[0]] == e;
    } else {
      assert u == ext[r.index := PopAt(e, r.shift)];
      InsertAfterPop(e, r.shift);
      assert RedoOverlay(u, r) == u[r.index := Insert(PopAt(e, r.shift), r.shift, e[r.shift])];
    }
  }

  /**
   * Redo then undo of an insert record gives the overlay back, except that
   * an empty entry (a deleted byte) would come back as no entry at all.
   */
  lemma {:induction false} UndoRedoInsert(ext: Overlay, r: LogRecord)
    requires r.isInsert && |r.newByte| > 0
    requires r.index in ext ==> 0 < |ext[r.index]| && r.shift <= |ext[r.index]|
    requires r.index !in ext ==> r.shift == 0
    ensures CanUndo(RedoOverlay(ext, r), r)
    ensures UndoOverlay(RedoOverlay(ext, r), r) == ext
  {
    var d := RedoOverlay(ext, r);
    var b := r.newByte[0];
    if r.index in ext {
      var e := ext[r.index];
      assert d[r.index] == Insert(e, r.shift, b);
      PopAfterInsert(e, r.shift, b);
      assert UndoOverlay(d, r) == d[r.index := e];
    } else {
      assert d[r.index] == [b];
      assert UndoOverlay(d, r) == d - {r.index};
      assert d - {r.index} == ext;
    }
  }

  /**
   * Undo then redo of a delete-flagged record gives the overlay back, an
   * empty entry excepted as above.
   */
  lemma {:induction false} RedoUndoDelete(ext: Overlay, r: LogRecord)
    requires !r.isInsert && r.oldExtend.Some? && r.shift < |r.oldExtend.value|
    requires r.index in ext ==> 0 < |ext[r.index]| && r.shift <= |ext[r.index]|
    requires r.index !in ext ==> r.shift == 0
    ensures CanRedo(UndoOverlay(ext, r), r)
    ensures RedoOverlay(UndoOverlay(ext, r), r) == ext
  {
    var u := UndoOverlay(ext, r);
    var b := r.oldExtend.value[r.shift];
    if r.index in ext {
      var e := ext[r.index];
      assert u[r.index] == Insert(e, r.shift, b);
      PopAfterInsert(e, r.shift, b);
      assert RedoOverlay(u, r) == u[r.index := e];
    } else {
      assert u[r.index] == [b];
      assert RedoOverlay(u, r) == u - {r.index};
      assert u - {r.index} == ext;
    }
  }

  /**
   * Redo then undo of a delete-flagged record gives the overlay back when
   * the snapshot holds the byte that redo removes.
   */
  lemma {:induction false} UndoRedoDelete(ext: Overlay, r: LogRecord)
    requires !r.isInsert && r.oldExtend.Some? && r.shift < |r.oldExtend.value|
    requires r.index in ext && r.shift < |ext[r.index]|
    requires r.oldExtend.value[r.shift] == ext[r.index][r.shift]
    ensures CanUndo(RedoOverlay(ext, r), r)
    ensures UndoOverlay(RedoOverlay(ext, r), r) == ext
  {
    var e := ext[r.index];
    var d := RedoOverlay(ext, r);
    if |e| == 1 {
      assert d == ext - {r.index};
      assert UndoOverlay(d, r) == d[r.index := [e[r.shift]]];
      assert [e[r.shift]] == e;
    } else {
      assert d == ext[r.index := PopAt(e, r.shift)];
      InsertAfterPop(e, r.shift);
      assert UndoOverlay(d, r) == d[r.index := Insert(PopAt(e, r.shift), r.shift, e[r.shift])];
    }
  }
}
