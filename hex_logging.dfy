/**
 * The older undo/redo log (model/hex_logging.py), which the buffer no
 * longer imports. Its undo puts back the record's snapshot of the whole
 * entry; its redo re-derives the forward edit from the record's shape and
 * pushes a fresh record. An IndexError inside undo or redo is caught by
 * the source and leaves everything but the popped stack unchanged.
 */
module LegacyLog {
  import opened Bytes

  datatype LogRecord = LogRecord(
    index: int,
    oldExtend: Option<seq<Byte>>,
    newByte: seq<Byte>,
    shift: nat,
    isInsert: bool)

  /** The snapshot a record takes of anchor k: a copy of its entry, or None. */
  function Snapshot(ext: Overlay, k: int): Option<seq<Byte>>
  {
    if k in ext then Some(ext[k]) else None
  }

  /** Undo does not raise KeyError: a record without snapshot names a present key. */
  predicate CanUndo(ext: Overlay, r: LogRecord)
  {
    r.oldExtend.None? ==> r.index in ext
  }

  /** Overlay after undo (model/hex_logging.py:27-30): the snapshot is put back, or the key removed. */
  function UndoOverlay(ext: Overlay, r: LogRecord): (res: Overlay)
    requires CanUndo(ext, r)
    ensures r.oldExtend.Some? ==> r.index in res && res[r.index] == r.oldExtend.value
    ensures r.oldExtend.None? ==> r.index !in res
    ensures forall k :: k != r.index ==> (k in res <==> k in ext) && (k in res ==> res[k] == ext[k])
  {
    if r.oldExtend.Some? then ext[r.index := r.oldExtend.value] else ext - {r.index}
  }

  /** What redo leaves behind: an IndexError caught, or a new overlay and the record it pushes. */
  datatype RedoOutcome = Raised | Applied(ext: Overlay, pushed: LogRecord)

  /**
   * Redo raises nothing the source does not catch: no KeyError on a missing
   * entry, and no TypeError from storing b'' into an entry that has bytes
   * (model/hex_logging.py:46). Into an empty entry, the store fails its
   * index check first and raises a caught IndexError, as CPython does before
   * 3.12; from 3.12 on the value is checked first and the TypeError escapes.
   */
  predicate CanRedo(ext: Overlay, r: LogRecord)
  {
    if r.newByte == [] then
      if r.shift == 0 then r.index - 1 in ext ==> ext[r.index - 1] == []
      else r.index in ext
    else r.index in ext
  }

  /** One redo step of model/hex_logging.py:38-88. */
  function RedoStep(ext: Overlay, r: LogRecord): (o: RedoOutcome)
    requires CanRedo(ext, r)
  {
    if r.newByte == [] then
      if r.shift == 0 then
        if r.index - 1 in ext then
          // the entry is empty: storing b'' at index -1 raises IndexError, which
          // is caught (CPython before 3.12, which checks the index first)
          Raised
        else if r.index - 1 == -1 then
          Raised
        else
          Applied(ext[r.index - 1 := []], LogRecord(r.index - 1, None, [], 0, r.isInsert))
      else
        var e := ext[r.index];
        if r.shift - 1 < |e| then
          Applied(ext[r.index := PopAt(e, r.shift - 1)], LogRecord(r.index, Some(e), [], r.shift - 1, r.isInsert))
        else
          Raised
    else
      var e := ext[r.index];
      var b := r.newByte[0];
      if |e| == r.shift + 1 then
        if r.isInsert then
          if r.index + 1 in ext then
            var f := ext[r.index + 1];
            if 0 < |f| then
              Applied(ext[r.index + 1 := Assign(f, 0, b)], LogRecord(r.index + 1, Some(f), r.newByte, 0, r.isInsert))
            else
              Raised
          else
            Applied(ext[r.index + 1 := r.newByte], LogRecord(r.index + 1, None, r.newByte, 0, r.isInsert))
        else
          Applied(ext[r.index := e + [b]], LogRecord(r.index, Some(e), r.newByte, r.shift + 1, r.isInsert))
      else
        if r.isInsert then
          if r.shift + 1 < |e| then
            Applied(ext[r.index := Assign(e, r.shift + 1, b)], LogRecord(r.index, Some(e), r.newByte, r.shift + 1, r.isInsert))
          else
            Raised
        else
          Applied(ext[r.index := Insert(e, r.shift + 1, b)], LogRecord(r.index, Some(e), r.newByte, r.shift + 1, r.isInsert))
  }

  class Logger {
    var extended: Overlay
    var undoStack: seq<LogRecord>
    var redoStack: seq<LogRecord>

    constructor (ext: Overlay)
      ensures extended == ext && undoStack == [] && redoStack == []
    {
      extended := ext;
      undoStack := [];
      redoStack := [];
    }

    method Add(r: LogRecord)
      modifies this
      ensures extended == old(extended)
      ensures undoStack == old(undoStack) + [r]
      ensures redoStack == []
    {
      undoStack := undoStack + [r];
      redoStack := [];
    }

    method Undo()
      requires undoStack != [] ==> CanUndo(extended, undoStack[|undoStack| - 1])
      modifies this
      ensures old(undoStack) == [] ==>
        extended == old(extended) && undoStack == [] && redoStack == old(redoStack)
      ensures old(undoStack) != [] ==>
        var r := old(undoStack)[|old(undoStack)| - 1];
        && undoStack == old(undoStack)[..|old(undoStack)| - 1]
        && redoStack == old(redoStack) + [r]
        && extended == UndoOverlay(old(extended), r)
    {
      if undoStack == [] {
        return;
      }
      var log := undoStack[|undoStack| - 1];
      undoStack := undoStack[..|undoStack| - 1];
      if log.oldExtend.Some? {
        extended := extended[log.index := log.oldExtend.value];
      } else {
        extended := extended - {log.index};
      }
      redoStack := redoStack + [log];
    }

    method Redo()
      requires redoStack != [] ==> CanRedo(extended, redoStack[|redoStack| - 1])
      modifies this
      ensures old(redoStack) == [] ==>
        extended == old(extended) && redoStack == [] && undoStack == old(undoStack)
      ensures old(redoStack) != [] ==>
        var r := old(redoStack)[|old(redoStack)| - 1];
        && redoStack == old(redoStack)[..|old(redoStack)| - 1]
        && match RedoStep(old(extended), r)
           case Raised => extended == old(extended) && undoStack == old(undoStack)
           case Applied(e, p) => extended == e && undoStack == old(undoStack) + [p]
    {
      if redoStack == [] {
        return;
      }
      var log := redoStack[|redoStack| - 1];
      redoStack := redoStack[..|redoStack| - 1];
      if log.newByte == [] {
        RedoDeletion(log);
      } else {
        RedoWrite(log);
      }
    }

    /** Redo of a record that deleted a byte (its new byte is empty). */
    method RedoDeletion(log: LogRecord)
      requires log.newByte == [] && CanRedo(extended, log)
      modifies this
      ensures redoStack == old(redoStack)
      ensures match RedoStep(old(extended), log)
        case Raised => extended == old(extended) && undoStack == old(undoStack)
        case Applied(e, p) => extended == e && undoStack == old(undoStack) + [p]
    {
      var b := log.newByte;
      var rec: LogRecord;
      if log.shift == 0 {
        if log.index - 1 in extended {
          // extended[index - 1] is empty: extended[index - 1][-1] = b'' raises
          // IndexError, which is caught (CPython before 3.12, index checked first)
          return;
        }
        if log.index - 1 == -1 {
          return;
        }
        rec := LogRecord(log.index - 1, None, b, 0, log.isInsert);
        extended := extended[rec.index := []];
      } else {
        var e := extended[log.index];
        if log.shift - 1 >= |e| {
          return;
        }
        rec := LogRecord(log.index, Some(e), b, log.shift - 1, log.isInsert);
        extended := extended[rec.index := PopAt(e, rec.shift)];
      }
      undoStack := undoStack + [rec];
    }

    /** Redo of a record that wrote a byte, by overwrite or by insertion. */
    method RedoWrite(log: LogRecord)
      requires log.newByte != [] && CanRedo(extended, log)
      modifies this
      ensures redoStack == old(redoStack)
      ensures match RedoStep(old(extended), log)
        case Raised => extended == old(extended) && undoStack == old(undoStack)
        case Applied(e, p) => extended == e && undoStack == old(undoStack) + [p]
    {
      var b := log.newByte;
      var e := extended[log.index];
      var rec: LogRecord;
      if |e| == log.shift + 1 {
        if log.isInsert {
          if log.index + 1 in extended {
            var f := extended[log.index + 1];
            rec := LogRecord(log.index + 1, Some(f), b, 0, log.isInsert);
            if |f| == 0 {
              return;
            }
            extended := extended[rec.index := Assign(f, rec.shift, b[0])];
          } else {
            rec := LogRecord(log.index + 1, None, b, 0, log.isInsert);
            extended := extended[rec.index := b];
          }
        } else {
          rec := LogRecord(log.index, Some(e), b, log.shift + 1, log.isInsert);
          extended := extended[rec.index := e + [b[0]]];
        }
      } else {
        rec := LogRecord(log.index, Some(e), b, log.shift + 1, log.isInsert);
        if log.isInsert {
          if rec.shift >= |e| {
            return;
          }
          extended := extended[rec.index := Assign(e, rec.shift, b[0])];
        } else {
          extended := extended[rec.index := Insert(e, rec.shift, b[0])];
        }
      }
      undoStack := undoStack + [rec];
    }
  }

  // -----------------------------------------------------------------------
  // Properties of the snapshot log
  // -----------------------------------------------------------------------

  /**
   * A record snapshotting anchor k before any edit confined to k is undone
   * exactly: whatever k holds afterwards (or if k was removed), undo gives
   * the overlay back.
   */
  lemma UndoRestoresSnapshot(ext: Overlay, k: int, after: Overlay, r: LogRecord)
    requires r.index == k && r.oldExtend == Snapshot(ext, k)
    requires forall j :: j != k ==> (j in after <==> j in ext) && (j in after ==> after[j] == ext[j])
    requires k !in ext ==> k in after
    ensures CanUndo(after, r)
    ensures UndoOverlay(after, r) == ext
  {
    var u := UndoOverlay(after, r);
    forall j | j in u.Keys || j in ext.Keys
      ensures j in u.Keys && j in ext.Keys && u[j] == ext[j]
    {
      if j != k {
        assert j in after <==> j in ext;
      }
    }
    assert u.Keys == ext.Keys;
  }

  /**
   * Every redo that does not raise touches only the anchor of the record it
   * pushes, and that record snapshots the anchor as it was: so undo takes
   * back any successful redo exactly.
   */
  lemma {:induction false} UndoInvertsRedo(ext: Overlay, r: LogRecord)
    requires CanRedo(ext, r) && RedoStep(ext, r).Applied?
    ensures var o := RedoStep(ext, r);
            && o.pushed.oldExtend == Snapshot(ext, o.pushed.index)
            && CanUndo(o.ext, o.pushed)
            && UndoOverlay(o.ext, o.pushed) == ext
  {
    var o := RedoStep(ext, r);
    RedoConfined(ext, r);
    UndoRestoresSnapshot(ext, o.pushed.index, o.ext, o.pushed);
  }

  /** A successful redo writes only the anchor of the record it pushes, which it snapshots first. */
  lemma RedoConfined(ext: Overlay, r: LogRecord)
    requires CanRedo(ext, r) && RedoStep(ext, r).Applied?
    ensures var o := RedoStep(ext, r);
            && o.pushed.oldExtend == Snapshot(ext, o.pushed.index)
            && o.pushed.index in o.ext
            && o.ext.Keys == ext.Keys + {o.pushed.index}
            && forall j :: j != o.pushed.index && j in ext ==> o.ext[j] == ext[j]
  {
  }

  /** Redo never removes an anchor, and a raised redo changes nothing. */
  lemma RedoKeepsAnchors(ext: Overlay, r: LogRecord)
    requires CanRedo(ext, r)
    ensures RedoStep(ext, r).Applied? ==> ext.Keys <= RedoStep(ext, r).ext.Keys
    ensures RedoStep(ext, r).Applied? ==> |RedoStep(ext, r).ext.Keys| <= |ext.Keys| + 1
  {
    var o := RedoStep(ext, r);
    if o.Applied? {
      RedoConfined(ext, r);
      var k := o.pushed.index;
      if k in ext {
        assert o.ext.Keys == ext.Keys;
      } else {
        assert o.ext.Keys == ext.Keys + {k};
      }
    }
  }

  /**
   * The redo case of model/hex_logging.py:80-88 for a non-insert record in
   * the middle of its entry: new_byte[0] goes in at shift + 1 and the pushed
   * record points there.
   */
  lemma RedoInsertsAfterShift(ext: Overlay, r: LogRecord)
    requires r.newByte != [] && !r.isInsert
    requires r.index in ext && |ext[r.index]| > r.shift + 1
    ensures CanRedo(ext, r)
    ensures var o := RedoStep(ext, r);
            && o.Applied?
            && o.ext == ext[r.index := Insert(ext[r.index], r.shift + 1, r.newByte[0])]
            && o.pushed == LogRecord(r.index, Some(ext[r.index]), r.newByte, r.shift + 1, false)
            && |o.ext[r.index]| == |ext[r.index]| + 1
  {
  }
}
