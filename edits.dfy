/**
 * What one edit of the buffer does to the overlay, as pure functions of
 * the state the edit reads: the base file, the visible window `shown`,
 * the view-to-anchor index `byte_index`, and the overlay itself. The
 * buffer's methods (module HexBuffer) are proved to compute exactly
 * these; the properties of edits are proved here.
 */
module Edits {
  import opened Bytes
  import opened EditLog
  import Render
  import Document

  /** What an edit reads and never changes: base file, window, index from window position to anchor. */
  datatype View = View(base: seq<Byte>, shown: seq<Byte>, index: map<int, int>)

  /**
   * How many positions directly before and including j map to anchor a:
   * the shift loop of add_byte and delete_byte (model/model.py:195-201,
   * 273-279), which stops at the first position that is missing or maps to
   * another anchor.
   */
  function Run(bi: map<int, int>, j: int, a: int): nat
    decreases if j in bi then j - SetMin(bi.Keys) + 1 else 0
  {
    if j in bi && bi[j] == a then 1 + Run(bi, j - 1, a) else 0
  }

  /** Run only looks at positions up to j. */
  lemma {:induction false} RunAgree(bi: map<int, int>, bi2: map<int, int>, j: int, a: int)
    requires forall k :: k <= j ==> (k in bi <==> k in bi2) && (k in bi ==> bi[k] == bi2[k])
    ensures Run(bi, j, a) == Run(bi2, j, a)
    decreases if j in bi then j - SetMin(bi.Keys) + 1 else 0
  {
    if j in bi && bi[j] == a {
      RunAgree(bi, bi2, j - 1, a);
    }
  }

  // -----------------------------------------------------------------------
  // add_byte and delete_byte
  // -----------------------------------------------------------------------

  /** The overlay after an edit and the record the edit logs. */
  datatype Step = Step(ext: Overlay, record: LogRecord)

  /** The window position add_byte works on: the index itself, or the one before it when inserting. */
  function Target(index: int, isInsert: bool): int
  {
    if isInsert then index else index - 1
  }

  /**
   * add_byte raises nothing uncaught: overwriting inside an entry needs the
   * entry to hold a byte at the shift (IndexError otherwise), and reading
   * the base byte at the anchor before the window needs a seekable offset.
   */
  predicate AddByteOk(v: View, ext: Overlay, index: int, isInsert: bool)
  {
    var i := Target(index, isInsert);
    i in v.index ==>
      var a := v.index[i];
      && (a in ext && isInsert ==> Run(v.index, i - 1, a) < |ext[a]|)
      && (a !in ext && !isInsert && i == -1 ==> a >= 0)
  }

  /**
   * add_byte (model/model.py:191-234). Overwrite mode replaces the byte at
   * the position's shift inside its anchor's entry, or gives an unedited
   * anchor the one-byte entry [b]. Insert mode puts b after the byte before
   * the position; an unedited anchor gets its old byte followed by b. A
   * position the index does not know edits the entry at anchor 0.
   */
  function AddByteStep(v: View, ext: Overlay, index: int, b: Byte, isInsert: bool): (s: Step)
    requires AddByteOk(v, ext, index, isInsert)
    ensures s.record.newByte == [b] && s.record.index in s.ext
    ensures forall k :: k != s.record.index ==> (k in s.ext <==> k in ext) && (k in ext ==> s.ext[k] == ext[k])
  {
    var i := Target(index, isInsert);
    if i in v.index then
      var a := v.index[i];
      if a in ext then
        var sh := Run(v.index, i - 1, a);
        var rec := LogRecord(a, Some(ext[a]), [b], sh, isInsert);
        if isInsert then Step(ext[a := Assign(ext[a], sh, b)], rec)
        else Step(ext[a := Insert(ext[a], sh + 1, b)], rec)
      else if isInsert then
        Step(ext[a := [b]], LogRecord(a, None, [b], 0, true))
      else if i != -1 then
        Step(ext[a := PySlice(v.shown, i, i + 1) + [b]], LogRecord(a, None, [b], 1, false))
      else
        Step(ext[a := Document.Read(v.base, a, a + 1) + [b]], LogRecord(a, None, [b], 1, false))
    else
      var e0 := if 0 in ext then ext[0] else PySlice(v.shown, 0, 1);
      Step(ext[0 := Insert(e0, 0, b)], LogRecord(0, Some(e0), [b], 1, isInsert))
  }

  /** Whether add_byte makes the document one byte longer (otherwise it keeps its size). */
  predicate AddByteGrows(v: View, ext: Overlay, index: int, isInsert: bool)
  {
    var i := Target(index, isInsert);
    if i in v.index then
      var a := v.index[i];
      !isInsert && (a in ext || (i != -1 && |PySlice(v.shown, i, i + 1)| == 1) || (i == -1 && 0 <= a < |v.base|))
    else 0 in ext || |v.shown| > 0
  }

  /**
   * Size effect of add_byte: overwriting never changes get_size; inserting
   * adds exactly one byte, except when the byte it should follow is not
   * there to be copied into the new entry.
   */
  lemma AddByteSize(v: View, ext: Overlay, index: int, b: Byte, isInsert: bool)
    requires AddByteOk(v, ext, index, isInsert)
    ensures Extra(AddByteStep(v, ext, index, b, isInsert).ext) == Extra(ext) + (if AddByteGrows(v, ext, index, isInsert) then 1 else 0)
  {
    var s := AddByteStep(v, ext, index, b, isInsert);
    var k := s.record.index;
    assert s.ext == ext[k := s.ext[k]];
    ExtraUpdate(ext, k, s.ext[k]);
    var i := Target(index, isInsert);
    if i in v.index && v.index[i] !in ext && !isInsert && i == -1 {
      assert |Document.Read(v.base, v.index[i], v.index[i] + 1)| == if v.index[i] < |v.base| then 1 else 0;
    }
  }

  /** An overwrite of an unedited anchor, as in tests/model_test.py:21-39, is undone and redone exactly. */
  lemma FreshOverwriteUndoRedo(v: View, ext: Overlay, index: int, b: Byte)
    requires index in v.index && v.index[index] !in ext
    ensures AddByteOk(v, ext, index, true)
    ensures var s := AddByteStep(v, ext, index, b, true);
            && s.ext == ext[v.index[index] := [b]]
            && CanUndo(s.ext, s.record) && UndoOverlay(s.ext, s.record) == ext
            && CanRedo(ext, s.record) && RedoOverlay(ext, s.record) == s.ext
  {
    var s := AddByteStep(v, ext, index, b, true);
    var a := v.index[index];
    assert s.ext == ext[a := [b]];
    assert UndoOverlay(s.ext, s.record) == s.ext - {a};
    assert s.ext - {a} == ext;
  }

  /** delete_byte raises nothing uncaught: the position is in the index (KeyError otherwise). */
  predicate DeleteOk(v: View, index: int)
  {
    index in v.index
  }

  /**
   * delete_byte (model/model.py:271-290): pops the byte at the position's
   * shift inside its anchor's entry (nothing when there is none: the
   * IndexError is caught), or gives an unedited anchor the empty entry. It
   * logs an insert-flagged record with no byte.
   */
  function DeleteStep(v: View, ext: Overlay, index: int): (s: Step)
    requires DeleteOk(v, index)
    ensures s.record.newByte == [] && s.record.isInsert && s.record.index in s.ext
    ensures forall k :: k != s.record.index ==> (k in s.ext <==> k in ext) && (k in ext ==> s.ext[k] == ext[k])
  {
    var a := v.index[index];
    if a in ext then
      var sh := Run(v.index, index - 1, a);
      var rec := LogRecord(a, Some(ext[a]), [], sh, true);
      if sh < |ext[a]| then Step(ext[a := PopAt(ext[a], sh)], rec) else Step(ext, rec)
    else
      Step(ext[a := []], LogRecord(a, None, [], 0, true))
  }

  /**
   * The record delete_byte logs can never be redone, whatever the overlay
   * by then: it is insert-flagged with no byte, and redo takes its first byte
   * (model/logging.py:86-90), so undoing a deletion and redoing it raises.
   */
  lemma DeleteNotRedoable(v: View, ext: Overlay, index: int, later: Overlay)
    requires DeleteOk(v, index)
    ensures !CanRedo(later, DeleteStep(v, ext, index).record)
  {
  }

  /** Size effect of delete_byte: one byte less, unless the shift falls outside the entry. */
  lemma DeleteSize(v: View, ext: Overlay, index: int)
    requires DeleteOk(v, index)
    ensures var a := v.index[index];
            Extra(DeleteStep(v, ext, index).ext)
              == Extra(ext) - (if a !in ext || Run(v.index, index - 1, a) < |ext[a]| then 1 else 0)
  {
    var s := DeleteStep(v, ext, index);
    var a := v.index[index];
    ExtraUpdate(ext, a, s.ext[a]);
    assert s.ext == ext[a := s.ext[a]];
  }

  // -----------------------------------------------------------------------
  // The view-coordinate dispatchers, one cursor
  // -----------------------------------------------------------------------

  /** The overlay, the records an edit logged, and the cursor position it returns. */
  datatype Edit = Edit(ext: Overlay, log: seq<LogRecord>, pos: int)

  /** A key of the hex pane: one lowercase hex digit. */
  predicate IsHexChar(ch: string)
  {
    |ch| == 1 && ch[0] in Render.Digits
  }

  /** The byte under window position i, which the nibble edits read (`shown[i:i+1]`). */
  function Under(v: View, i: int): seq<Byte>
  {
    PySlice(v.shown, i, i + 1)
  }

  /** In the hex pane an input at a byte boundary inserts unless in overwrite mode inside the window. */
  predicate HexOverwrites(v: View, p: int, flag: bool)
  {
    p % 3 != 0 || (p != |v.shown| * 3 && flag)
  }

  /**
   * The hex-pane edit raises nothing: a nibble edit needs a byte under the
   * cursor (otherwise `bytes.fromhex` gets one digit), and add_byte must not raise.
   */
  predicate HexEditOk(v: View, ext: Overlay, p: int, ch: string, flag: bool)
  {
    IsHexChar(ch) ==>
      && (HexOverwrites(v, p, flag) ==> |Under(v, p / 3)| == 1)
      && AddByteOk(v, ext, p / 3, HexOverwrites(v, p, flag))
  }

  /** The byte a hex-pane key produces (model/model.py:165-177). */
  function HexByte(v: View, p: int, ch: string, flag: bool): Byte
    requires IsHexChar(ch)
    requires HexOverwrites(v, p, flag) ==> |Under(v, p / 3)| == 1
  {
    var d := Render.DigitValue(ch[0]);
    if p % 3 == 0 then
      if HexOverwrites(v, p, flag) then d * 16 + Under(v, p / 3)[0] % 16 else d * 16
    else
      Under(v, p / 3)[0] / 16 * 16 + d
  }

  /**
   * update_from_hex_position without its fan-out (model/model.py:162-176):
   * a hex digit edits the byte under column p and the cursor moves one
   * column at a byte boundary, two inside a byte; any other key does nothing.
   */
  function HexEdit(v: View, ext: Overlay, p: int, ch: string, flag: bool): (e: Edit)
    requires HexEditOk(v, ext, p, ch, flag)
    ensures !IsHexChar(ch) ==> e == Edit(ext, [], p)
    ensures IsHexChar(ch) ==> |e.log| == 1 && e.pos == if p % 3 == 0 then p + 1 else p + 2
  {
    if IsHexChar(ch) then
      var s := AddByteStep(v, ext, p / 3, HexByte(v, p, ch, flag), HexOverwrites(v, p, flag));
      Edit(s.ext, [s.record], if p % 3 == 0 then p + 1 else p + 2)
    else Edit(ext, [], p)
  }

  predicate HexBackspaceOk(v: View, p: int)
  {
    p % 3 == 0 && p != 0 ==> DeleteOk(v, p / 3 - 1)
  }

  /**
   * backspace_event_from_hex without its fan-out (model/model.py:320-328):
   * at a byte boundary other than 0 the byte before the cursor is deleted
   * and the cursor moves back three columns; elsewhere nothing changes.
   */
  function HexBackspace(v: View, ext: Overlay, p: int): (e: Edit)
    requires HexBackspaceOk(v, p)
    ensures p % 3 == 0 && p != 0 ==> |e.log| == 1 && e.pos == p - 3
    ensures !(p % 3 == 0 && p != 0) ==> e == Edit(ext, [], p)
  {
    if p % 3 == 0 && p != 0 then
      var s := DeleteStep(v, ext, p / 3 - 1);
      Edit(s.ext, [s.record], p - 3)
    else Edit(ext, [], p)
  }

  /** `str.isalnum()` on the ASCII characters text input is restricted to. */
  predicate IsAlnum(c: char)
  {
    '0' <= c <= '9' || 'a' <= c <= 'z' || 'A' <= c <= 'Z'
  }

  /** Window index of text-pane column p: every row of 16 characters takes 17 columns. */
  function TextIndex(p: int): int
  {
    p - p / 17
  }

  /** Text input is ASCII (one byte per character) and add_byte must not raise. */
  predicate TextEditOk(v: View, ext: Overlay, p: int, ch: char, flag: bool)
  {
    && ch as int < 128
    && (IsAlnum(ch) ==> AddByteOk(v, ext, TextIndex(p), p != |v.shown| + p / 17 && flag))
  }

  /**
   * update_from_text_position (model/model.py:250-262): an alphanumeric key
   * edits the byte under column p (inserting at the end of the window or
   * in insert mode); the cursor skips the line break after the 16th
   * character of a row and the extra column at the end of the window.
   */
  function TextEdit(v: View, ext: Overlay, p: int, ch: char, flag: bool): (e: Edit)
    requires TextEditOk(v, ext, p, ch, flag)
    ensures !IsAlnum(ch) ==> e == Edit(ext, [], p)
    ensures IsAlnum(ch) ==> |e.log| == 1
    ensures IsAlnum(ch) ==>
      e.pos == p + 1 + (if p % 17 == 15 then 1 else 0) + (if TextIndex(p) == |v.shown| then 1 else 0)
  {
    if IsAlnum(ch) then
      var s := AddByteStep(v, ext, TextIndex(p), ch as int, p != |v.shown| + p / 17 && flag);
      var q := if p % 17 == 15 then p + 1 else p;
      var q' := if TextIndex(p) == |v.shown| then q + 1 else q;
      Edit(s.ext, [s.record], q' + 1)
    else Edit(ext, [], p)
  }

  predicate TextBackspaceOk(v: View, p: int)
  {
    DeleteOk(v, p - p / 17 - 1)
  }

  /**
   * backspace_event_from_text (model/model.py:302-308): deletes the byte
   * before column p; the cursor moves back one column, two when it lands
   * on a row's line break.
   */
  function TextBackspace(v: View, ext: Overlay, p: int): (e: Edit)
    requires TextBackspaceOk(v, p)
    ensures |e.log| == 1
    ensures e.pos == if (p - 1) % 17 == 16 then p - 2 else p - 1
  {
    var s := DeleteStep(v, ext, p - p / 17 - 1);
    var q := p - 1;
    Edit(s.ext, [s.record], if q % 17 == 16 then q - 1 else q)
  }

  // -----------------------------------------------------------------------
  // The multi-cursor fan-out
  // -----------------------------------------------------------------------

  /** `list(set(cursors))` sorted. */
  function Distinct(cursors: seq<int>): (r: seq<int>)
    ensures StrictlySorted(r)
    ensures forall c :: c in r <==> c in cursors
  {
    SortedSeq(set c | c in cursors)
  }

  /** Cursors after c move by d, the others stay (model/model.py:429-432, 443-446). */
  function ShiftAfter(cs: seq<int>, c: int, d: int): (r: seq<int>)
    ensures |r| == |cs|
    ensures forall i :: 0 <= i < |cs| ==> r[i] == if cs[i] > c then cs[i] + d else cs[i]
  {
    seq(|cs|, i requires 0 <= i < |cs| => if cs[i] > c then cs[i] + d else cs[i])
  }

  /** Everything the fan-out changes: overlay, records logged, cursors, and the primary position. */
  datatype Fan = Fan(ext: Overlay, log: seq<LogRecord>, cursors: seq<int>, pos: int)

  /** The input replays from cursor i on raise nothing. */
  predicate InputFanOk(v: View, ext: Overlay, cs: seq<int>, i: nat, ch: string, flag: bool)
    decreases |cs| - i
  {
    i < |cs| ==>
      && HexEditOk(v, ext, cs[i], ch, flag)
      && InputFanOk(v, HexEdit(v, ext, cs[i], ch, flag).ext, cs, i + 1, ch, flag)
  }

  /**
   * The input replay loop (model/model.py:447-460) from cursor i on, over
   * the cursor list cs it started from (entry i is read before it is
   * overwritten): each secondary cursor gets the same key; in insert mode
   * every landing on a byte's second digit pushes the following cursors,
   * and the primary cursor when it lies behind, three columns further.
   */
  function InputFan(v: View, cs: seq<int>, f: Fan, i: nat, offset: int, ch: string, flag: bool): (r: Fan)
    requires i <= |cs| == |f.cursors|
    requires InputFanOk(v, f.ext, cs, i, ch, flag)
    ensures |r.cursors| == |cs| && r.cursors[..i] == f.cursors[..i]
    ensures |r.log| == |f.log| + (if IsHexChar(ch) then |cs| - i else 0)
    decreases |cs| - i
  {
    if i == |cs| then f
    else
      var e := HexEdit(v, f.ext, cs[i], ch, flag);
      var c := offset + e.pos;
      var push := !flag && (c - 1) % 3 == 0;
      var f' := Fan(e.ext, f.log + e.log, f.cursors[i := c], if push && c < f.pos - 3 then f.pos + 3 else f.pos);
      var r := InputFan(v, cs, f', i + 1, if push then offset + 3 else offset, ch, flag);
      PrefixKept(r.cursors, f.cursors, i, c);
      r
  }

  /** Setting entry i leaves the entries before i alone. */
  lemma PrefixKept(r: seq<int>, f: seq<int>, i: nat, c: int)
    requires i < |f| == |r| && r[..i + 1] == f[i := c][..i + 1]
    ensures r[..i] == f[..i]
  {
    assert r[..i] == r[..i + 1][..i];
  }

  /** The backspace replays, cursors i-1 down to 0, raise nothing. */
  predicate BackFanOk(v: View, ext: Overlay, cs: seq<int>, i: nat)
    requires i <= |cs|
    decreases i
  {
    i > 0 ==>
      && (cs[i - 1] % 3 == 0 ==>
            && HexBackspaceOk(v, cs[i - 1])
            && BackFanOk(v, HexBackspace(v, ext, cs[i - 1]).ext, cs, i - 1))
      && (cs[i - 1] % 3 != 0 ==> BackFanOk(v, ext, cs, i - 1))
  }

  /**
   * The backspace replay loop (model/model.py:433-440), from cursor i-1 down
   * to 0 of the list cs it started from: a cursor at a byte boundary
   * deletes the byte before it and moves back; the primary position moves
   * back three columns for every such nonzero cursor less than three
   * columns after it.
   */
  function BackFan(v: View, cs: seq<int>, f: Fan, i: nat): (r: Fan)
    requires i <= |cs| == |f.cursors|
    requires BackFanOk(v, f.ext, cs, i)
    ensures |r.cursors| == |cs| && r.cursors[i..] == f.cursors[i..]
    decreases i
  {
    if i == 0 then f
    else
      var c := cs[i - 1];
      if c % 3 == 0 then
        var p := if f.pos + 3 > c && c != 0 then f.pos - 3 else f.pos;
        var e := HexBackspace(v, f.ext, c);
        var r := BackFan(v, cs, Fan(e.ext, f.log + e.log, f.cursors[i - 1 := e.pos], p), i - 1);
        assert r.cursors[i..] == r.cursors[i - 1..][1..];
        r
      else BackFan(v, cs, f, i - 1)
  }

  /** One turn of the backspace replay at a byte boundary: the deletion at cursor i-1, then the replay below it. */
  lemma BackFanStep(v: View, cs: seq<int>, f: Fan, i: nat)
    requires 0 < i <= |cs| == |f.cursors| && cs[i - 1] % 3 == 0
    requires BackFanOk(v, f.ext, cs, i)
    ensures HexBackspaceOk(v, cs[i - 1])
    ensures var c := cs[i - 1];
            var e := HexBackspace(v, f.ext, c);
            var f' := Fan(e.ext, f.log + e.log, f.cursors[i - 1 := e.pos], if f.pos + 3 > c && c != 0 then f.pos - 3 else f.pos);
            && BackFanOk(v, e.ext, cs, i - 1)
            && BackFan(v, cs, f, i) == BackFan(v, cs, f', i - 1)
  {
  }

  /** The cursor list the replays start from (model/model.py:426-432, 442-446). */
  function FanCursors(cursors: seq<int>, p: int, ch: string, flag: bool): (cs: seq<int>)
    ensures |cs| == |Distinct(cursors)|
  {
    var cs := Distinct(cursors);
    if ch == "" then
      if p % 3 == 0 && flag then ShiftAfter(cs, p + 3, -3) else cs
    else
      if !flag && (p - 1) % 3 == 0 then ShiftAfter(cs, p - 3, 3) else cs
  }

  predicate MultiOk(v: View, ext: Overlay, cursors: seq<int>, p: int, ch: string, flag: bool)
  {
    var cs := FanCursors(cursors, p, ch, flag);
    if ch == "" then BackFanOk(v, ext, cs, |cs|) else InputFanOk(v, ext, cs, 0, ch, flag)
  }

  /** handle_multicursor when not already replaying (model/model.py:425-460). */
  function Multi(v: View, ext: Overlay, cursors: seq<int>, p: int, ch: string, flag: bool): (r: Fan)
    requires MultiOk(v, ext, cursors, p, ch, flag)
    ensures |r.cursors| == |Distinct(cursors)|
  {
    var cs := FanCursors(cursors, p, ch, flag);
    if ch == "" then BackFan(v, cs, Fan(ext, [], cs, p), |cs|)
    else InputFan(v, cs, Fan(ext, [], cs, p), 0, 0, ch, flag)
  }

  /** One turn of the input replay: the edit at cursor i, then the replay from i + 1. */
  lemma InputFanStep(v: View, cs: seq<int>, f: Fan, i: nat, offset: int, ch: string, flag: bool)
    requires i < |cs| == |f.cursors|
    requires InputFanOk(v, f.ext, cs, i, ch, flag)
    ensures HexEditOk(v, f.ext, cs[i], ch, flag)
    ensures var e := HexEdit(v, f.ext, cs[i], ch, flag);
            var c := offset + e.pos;
            var push := !flag && (c - 1) % 3 == 0;
            var f' := Fan(e.ext, f.log + e.log, f.cursors[i := c], if push && c < f.pos - 3 then f.pos + 3 else f.pos);
            && InputFanOk(v, e.ext, cs, i + 1, ch, flag)
            && InputFan(v, cs, f, i, offset, ch, flag) == InputFan(v, cs, f', i + 1, if push then offset + 3 else offset, ch, flag)
  {
  }

  /** InputFanStep for a turn whose landing column, next state and next offset are already known. */
  lemma InputFanTurn(v: View, cs: seq<int>, f: Fan, i: nat, offset: int, ch: string, flag: bool,
                     landed: int, f2: Fan, offset2: int)
    requires i < |cs| == |f.cursors|
    requires InputFanOk(v, f.ext, cs, i, ch, flag)
    requires var e := HexEdit(v, f.ext, cs[i], ch, flag);
             var push := !flag && (landed - 1) % 3 == 0;
             && landed == offset + e.pos
             && f2 == Fan(e.ext, f.log + e.log, f.cursors[i := landed], if push && landed < f.pos - 3 then f.pos + 3 else f.pos)
             && offset2 == if push then offset + 3 else offset
    ensures |f2.cursors| == |cs|
    ensures InputFanOk(v, f2.ext, cs, i + 1, ch, flag)
    ensures InputFan(v, cs, f2, i + 1, offset2, ch, flag) == InputFan(v, cs, f, i, offset, ch, flag)
  {
    InputFanStep(v, cs, f, i, offset, ch, flag);
  }

  /** Inside a replay, a hex-pane key is just the edit at its own cursor. */
  lemma HexInputBusy(v: View, ext: Overlay, cursors: seq<int>, p: int, ch: string, flag: bool)
    requires HexEditOk(v, ext, p, ch, flag)
    ensures HexInputOk(v, ext, cursors, true, p, ch, flag)
    ensures var e := HexEdit(v, ext, p, ch, flag);
            HexInput(v, ext, cursors, true, p, ch, flag) == Fan(e.ext, e.log, cursors, e.pos)
  {
  }

  /** Without secondary cursors the fan-out does nothing. */
  lemma MultiNoCursors(v: View, ext: Overlay, p: int, ch: string, flag: bool)
    ensures MultiOk(v, ext, [], p, ch, flag)
    ensures Multi(v, ext, [], p, ch, flag) == Fan(ext, [], [], p)
  {
    var none: seq<int> := [];
    assert (set c | c in none) == {};
    assert FanCursors(none, p, ch, flag) == [];
  }

  // -----------------------------------------------------------------------
  // The dispatchers with fan-out
  // -----------------------------------------------------------------------

  predicate HexInputOk(v: View, ext: Overlay, cursors: seq<int>, busy: bool, p: int, ch: string, flag: bool)
  {
    && HexEditOk(v, ext, p, ch, flag)
    && (IsHexChar(ch) && !busy ==>
          var e := HexEdit(v, ext, p, ch, flag);
          MultiOk(v, e.ext, cursors, e.pos, ch, flag))
  }

  /**
   * update_from_hex_position (model/model.py:162-178): the edit at the
   * primary cursor, then, unless a fan-out is already running, the same
   * key at every secondary cursor.
   */
  function HexInput(v: View, ext: Overlay, cursors: seq<int>, busy: bool, p: int, ch: string, flag: bool): (r: Fan)
    requires HexInputOk(v, ext, cursors, busy, p, ch, flag)
  {
    var e := HexEdit(v, ext, p, ch, flag);
    if IsHexChar(ch) && !busy then
      var m := Multi(v, e.ext, cursors, e.pos, ch, flag);
      Fan(m.ext, e.log + m.log, m.cursors, m.pos)
    else Fan(e.ext, e.log, cursors, e.pos)
  }

  predicate HexBackOk(v: View, ext: Overlay, cursors: seq<int>, busy: bool, p: int)
  {
    && HexBackspaceOk(v, p)
    && (!busy ==>
          var e := HexBackspace(v, ext, p);
          MultiOk(v, e.ext, cursors, e.pos, "", p % 3 == 0 && p != 0))
  }

  /** backspace_event_from_hex (model/model.py:320-330): the deletion, then the fan-out. */
  function HexBack(v: View, ext: Overlay, cursors: seq<int>, busy: bool, p: int): (r: Fan)
    requires HexBackOk(v, ext, cursors, busy, p)
  {
    var e := HexBackspace(v, ext, p);
    if !busy then
      var m := Multi(v, e.ext, cursors, e.pos, "", p % 3 == 0 && p != 0);
      Fan(m.ext, e.log + m.log, m.cursors, m.pos)
    else Fan(e.ext, e.log, cursors, e.pos)
  }

  // -----------------------------------------------------------------------
  // Properties of the dispatchers
  // -----------------------------------------------------------------------

  /**
   * A key that is not a hex digit changes nothing; with no secondary
   * cursors a hex digit is one edit and moves the cursor one column at a
   * byte boundary, two inside a byte.
   */
  lemma HexInputSingle(v: View, ext: Overlay, busy: bool, p: int, ch: string, flag: bool)
    requires HexEditOk(v, ext, p, ch, flag)
    ensures HexInputOk(v, ext, [], busy, p, ch, flag)
    ensures var r := HexInput(v, ext, [], busy, p, ch, flag);
            && (!IsHexChar(ch) ==> r == Fan(ext, [], [], p))
            && (IsHexChar(ch) ==> |r.log| == 1 && r.cursors == [] && r.pos == if p % 3 == 0 then p + 1 else p + 2)
  {
    if IsHexChar(ch) && !busy {
      var e := HexEdit(v, ext, p, ch, flag);
      MultiNoCursors(v, e.ext, e.pos, ch, flag);
    }
  }

  /**
   * With no secondary cursors, backspace deletes the byte before a nonzero
   * byte boundary and moves three columns back; anywhere else it does nothing.
   */
  lemma HexBackSingle(v: View, ext: Overlay, busy: bool, p: int)
    requires HexBackspaceOk(v, p)
    ensures HexBackOk(v, ext, [], busy, p)
    ensures var r := HexBack(v, ext, [], busy, p);
            && r.cursors == []
            && (p % 3 == 0 && p != 0 ==> |r.log| == 1 && r.pos == p - 3 && r.ext == DeleteStep(v, ext, p / 3 - 1).ext)
            && (!(p % 3 == 0 && p != 0) ==> r == Fan(ext, [], [], p))
  {
    if !busy {
      var e := HexBackspace(v, ext, p);
      MultiNoCursors(v, e.ext, e.pos, "", p % 3 == 0 && p != 0);
    }
  }

  /** Every replay logs one record per secondary cursor that types a hex digit. */
  lemma InputFanLogs(v: View, ext: Overlay, cursors: seq<int>, p: int, ch: string, flag: bool)
    requires ch != "" && MultiOk(v, ext, cursors, p, ch, flag)
    ensures |Multi(v, ext, cursors, p, ch, flag).log| == if IsHexChar(ch) then |Distinct(cursors)| else 0
  {
  }

  /** Where a hex digit typed in overwrite mode leaves a cursor standing at column c. */
  function Advance(c: int): int
  {
    if c % 3 == 0 then c + 1 else c + 2
  }

  /**
   * Advance keeps columns in order; it keeps them apart unless the first
   * stands on the separator column just before the second.
   */
  lemma AdvanceMonotone(c: int, d: int)
    requires c < d
    ensures Advance(c) <= Advance(d)
    ensures Advance(c) == Advance(d) <==> c % 3 == 2 && d == c + 1
  {
  }

  /**
   * In overwrite mode the replay from cursor i on moves every remaining
   * cursor exactly as a lone cursor would move, never pushes anything, and
   * leaves the primary position alone.
   */
  lemma {:induction false} OverwriteFanMoves(v: View, cs: seq<int>, f: Fan, i: nat, ch: string)
    requires i <= |cs| == |f.cursors| && IsHexChar(ch)
    requires InputFanOk(v, f.ext, cs, i, ch, true)
    ensures var r := InputFan(v, cs, f, i, 0, ch, true);
            && r.pos == f.pos
            && forall j :: i <= j < |cs| ==> r.cursors[j] == Advance(cs[j])
    decreases |cs| - i
  {
    if i < |cs| {
      var e := HexEdit(v, f.ext, cs[i], ch, true);
      var f' := Fan(e.ext, f.log + e.log, f.cursors[i := e.pos], f.pos);
      InputFanTurn(v, cs, f, i, 0, ch, true, e.pos, f', 0);
      OverwriteFanMoves(v, cs, f', i + 1, ch);
      var r := InputFan(v, cs, f', i + 1, 0, ch, true);
      assert r.cursors[i] == r.cursors[..i + 1][i] == f'.cursors[i];
    }
  }

  /**
   * With several cursors in overwrite mode, handle_multicursor gives every
   * distinct cursor its own edit, moves each as a lone cursor would and
   * leaves the primary position alone; the cursors stay sorted, and
   * distinct when none stands on a separator column.
   */
  lemma OverwriteFanKeepsOrder(v: View, ext: Overlay, cursors: seq<int>, p: int, ch: string)
    requires IsHexChar(ch) && MultiOk(v, ext, cursors, p, ch, true)
    ensures var r := Multi(v, ext, cursors, p, ch, true);
            && r.pos == p
            && |r.log| == |Distinct(cursors)|
            && (forall j :: 0 <= j < |r.cursors| ==> r.cursors[j] == Advance(Distinct(cursors)[j]))
            && (forall j, k :: 0 <= j < k < |r.cursors| ==> r.cursors[j] <= r.cursors[k])
            && ((forall c :: c in cursors ==> c % 3 != 2) ==> StrictlySorted(r.cursors))
  {
    var cs := Distinct(cursors);
    var f := Fan(ext, [], cs, p);
    var r := Multi(v, ext, cursors, p, ch, true);
    assert InputFanOk(v, ext, cs, 0, ch, true) && r == InputFan(v, cs, f, 0, 0, ch, true);
    OverwriteFanMoves(v, cs, f, 0, ch);
    AdvancedOrder(cs, r.cursors);
    NoSeparatorKept(cursors);
  }

  /** Distinct keeps every cursor off the separator column when all were off it. */
  lemma NoSeparatorKept(cursors: seq<int>)
    ensures (forall c :: c in cursors ==> c % 3 != 2) ==> forall j :: 0 <= j < |Distinct(cursors)| ==> Distinct(cursors)[j] % 3 != 2
  {
    var cs := Distinct(cursors);
    assert forall j :: 0 <= j < |cs| ==> cs[j] in cursors;
  }

  /** Advancing a strictly sorted list of cursors keeps it sorted, strictly when none is on a separator column. */
  lemma AdvancedOrder(cs: seq<int>, moved: seq<int>)
    requires StrictlySorted(cs) && |moved| == |cs|
    requires forall j :: 0 <= j < |cs| ==> moved[j] == Advance(cs[j])
    ensures forall j, k :: 0 <= j < k < |moved| ==> moved[j] <= moved[k]
    ensures (forall j :: 0 <= j < |cs| ==> cs[j] % 3 != 2) ==> StrictlySorted(moved)
  {
    forall j, k | 0 <= j < k < |moved|
      ensures moved[j] <= moved[k]
      ensures cs[j] % 3 != 2 ==> moved[j] < moved[k]
    {
      AdvanceMonotone(cs[j], cs[k]);
    }
  }

  /** Whether a backspace at hex column c deletes a byte: c is a byte boundary other than 0. */
  predicate Erases(c: int)
  {
    c % 3 == 0 && c != 0
  }

  /** Where a backspace leaves a cursor standing at hex column c (model/model.py:320-330). */
  function Retreat(c: int): int
  {
    if Erases(c) then c - 3 else c
  }

  /** How many of the cursors cs[..i] delete a byte. */
  function Erasing(cs: seq<int>, i: nat): nat
    requires i <= |cs|
  {
    if i == 0 then 0 else Erasing(cs, i - 1) + (if Erases(cs[i - 1]) then 1 else 0)
  }

  /** How many of the cursors cs[..i] delete a byte and stand before column b. */
  function ErasingBelow(cs: seq<int>, i: nat, b: int): nat
    requires i <= |cs|
  {
    if i == 0 then 0 else ErasingBelow(cs, i - 1, b) + (if Erases(cs[i - 1]) && cs[i - 1] < b then 1 else 0)
  }

  /** Among cs[..i], the erasing cursors before column b come in increasing order. */
  predicate EraseOrder(cs: seq<int>, i: nat, b: int)
    requires i <= |cs|
  {
    forall j, k :: 0 <= j < k < i && Erases(cs[j]) && Erases(cs[k]) && cs[j] < b && cs[k] < b ==> cs[j] < cs[k]
  }

  /** The backspace replay over cursors i-1 down to 0 leaves each cursor where a lone backspace leaves it. */
  lemma {:induction false} BackFanMoves(v: View, cs: seq<int>, f: Fan, i: nat)
    requires i <= |cs| == |f.cursors| && f.cursors[..i] == cs[..i]
    requires BackFanOk(v, f.ext, cs, i)
    ensures var r := BackFan(v, cs, f, i);
            forall j :: 0 <= j < i ==> r.cursors[j] == Retreat(cs[j])
    decreases i
  {
    if i > 0 {
      var c := cs[i - 1];
      assert f.cursors[i - 1] == f.cursors[..i][i - 1] == c;
      var f' := f;
      if c % 3 == 0 {
        BackFanStep(v, cs, f, i);
        var e := HexBackspace(v, f.ext, c);
        f' := Fan(e.ext, f.log + e.log, f.cursors[i - 1 := e.pos], if f.pos + 3 > c && c != 0 then f.pos - 3 else f.pos);
        assert f'.cursors[..i - 1] == f.cursors[..i - 1];
      } else {
        assert BackFan(v, cs, f, i) == BackFan(v, cs, f, i - 1);
      }
      assert f'.cursors[..i - 1] == f.cursors[..i][..i - 1] == cs[..i - 1];
      BackFanMoves(v, cs, f', i - 1);
      LandsTurn(cs, f'.cursors, BackFan(v, cs, f', i - 1).cursors, i);
    }
  }

  /** One turn of BackFanMoves on the cursor lists alone: the cursor at i-1 has landed and is kept below. */
  lemma LandsTurn(cs: seq<int>, fc: seq<int>, rc: seq<int>, i: nat)
    requires 0 < i <= |cs| == |fc| == |rc|
    requires fc[i - 1] == Retreat(cs[i - 1]) && rc[i - 1..] == fc[i - 1..]
    requires forall j :: 0 <= j < i - 1 ==> rc[j] == Retreat(cs[j])
    ensures forall j :: 0 <= j < i ==> rc[j] == Retreat(cs[j])
  {
    assert rc[i - 1] == rc[i - 1..][0];
  }

  /** The backspace replay over cursors i-1 down to 0 logs one record per cursor on a nonzero byte boundary. */
  lemma {:induction false} BackFanLogs(v: View, cs: seq<int>, f: Fan, i: nat)
    requires i <= |cs| == |f.cursors|
    requires BackFanOk(v, f.ext, cs, i)
    ensures |BackFan(v, cs, f, i).log| == |f.log| + Erasing(cs, i)
    decreases i
  {
    if i > 0 {
      var c := cs[i - 1];
      if c % 3 == 0 {
        BackFanStep(v, cs, f, i);
        var e := HexBackspace(v, f.ext, c);
        BackFanLogs(v, cs, Fan(e.ext, f.log + e.log, f.cursors[i - 1 := e.pos], if f.pos + 3 > c && c != 0 then f.pos - 3 else f.pos), i - 1);
      } else {
        BackFanLogs(v, cs, f, i - 1);
      }
    }
  }

  /** Erasing cursors outside [lo, hi) do not tell the two bounds apart. */
  lemma {:induction false} ErasingBelowSame(cs: seq<int>, i: nat, lo: int, hi: int)
    requires i <= |cs|
    requires lo <= hi
    requires forall j :: 0 <= j < i && Erases(cs[j]) ==> !(lo <= cs[j] < hi)
    ensures ErasingBelow(cs, i, lo) == ErasingBelow(cs, i, hi)
    decreases i
  {
    if i > 0 {
      ErasingBelowSame(cs, i - 1, lo, hi);
    }
  }

  /**
   * The primary position after the backspace replay: three columns back
   * for every erasing cursor before column pos + 3, provided those come in
   * increasing order. The replay runs from the last cursor down, so once
   * one such cursor moves the position back, every smaller one does too.
   */
  lemma {:induction false} BackFanPrimary(v: View, cs: seq<int>, f: Fan, i: nat)
    requires i <= |cs| == |f.cursors|
    requires BackFanOk(v, f.ext, cs, i)
    requires EraseOrder(cs, i, f.pos + 3)
    ensures BackFan(v, cs, f, i).pos == f.pos - 3 * ErasingBelow(cs, i, f.pos + 3)
    decreases i
  {
    if i > 0 {
      var c := cs[i - 1];
      if c % 3 == 0 {
        BackFanStep(v, cs, f, i);
        var e := HexBackspace(v, f.ext, c);
        var moved := f.pos + 3 > c && c != 0;
        var f' := Fan(e.ext, f.log + e.log, f.cursors[i - 1 := e.pos], if moved then f.pos - 3 else f.pos);
        BackFanPrimary(v, cs, f', i - 1);
        if moved {
          forall j | 0 <= j < i - 1 && Erases(cs[j])
            ensures !(f.pos <= cs[j] < f.pos + 3)
          {
            if cs[j] < f.pos + 3 {
              assert cs[j] < c;
            }
          }
          ErasingBelowSame(cs, i - 1, f.pos, f.pos + 3);
        }
      } else {
        BackFanPrimary(v, cs, f, i - 1);
      }
    }
  }

  /**
   * The cursors backspace replays over come in the order the primary
   * correction needs: sorted, and after the shift for a deleted byte the
   * shifted cursors all stand at or after column p + 3.
   */
  lemma FanCursorsEraseOrder(cursors: seq<int>, p: int, flag: bool)
    ensures var cs := FanCursors(cursors, p, "", flag);
            EraseOrder(cs, |cs|, p + 3)
  {
    var d := Distinct(cursors);
    var cs := FanCursors(cursors, p, "", flag);
    forall j, k | 0 <= j < k < |cs| && Erases(cs[j]) && Erases(cs[k]) && cs[j] < p + 3 && cs[k] < p + 3
      ensures cs[j] < cs[k]
    {
      if p % 3 == 0 && flag {
        assert d[k] <= p + 3;
        assert cs[j] == d[j] && cs[k] == d[k];
      }
    }
  }

  /**
   * Backspace with secondary cursors (model/model.py:429-440): every
   * replayed cursor lands where a lone backspace leaves it, one byte is
   * deleted per cursor on a nonzero byte boundary, and the primary
   * position moves back three columns per such cursor before column p + 3.
   */
  lemma BackspaceFanMoves(v: View, ext: Overlay, cursors: seq<int>, p: int, flag: bool)
    requires MultiOk(v, ext, cursors, p, "", flag)
    ensures var cs := FanCursors(cursors, p, "", flag);
            var r := Multi(v, ext, cursors, p, "", flag);
            && |r.cursors| == |cs|
            && (forall j :: 0 <= j < |cs| ==> r.cursors[j] == Retreat(cs[j]))
            && |r.log| == Erasing(cs, |cs|)
            && r.pos == p - 3 * ErasingBelow(cs, |cs|, p + 3)
  {
    var cs := FanCursors(cursors, p, "", flag);
    FanCursorsEraseOrder(cursors, p, flag);
    BackFanWhole(v, ext, cs, p);
  }

  /** BackFanMoves and BackFanPrimary over a whole list of cursors, starting from an empty log. */
  lemma BackFanWhole(v: View, ext: Overlay, cs: seq<int>, p: int)
    requires BackFanOk(v, ext, cs, |cs|) && EraseOrder(cs, |cs|, p + 3)
    ensures var r := BackFan(v, cs, Fan(ext, [], cs, p), |cs|);
            && (forall j :: 0 <= j < |cs| ==> r.cursors[j] == Retreat(cs[j]))
            && |r.log| == Erasing(cs, |cs|)
            && r.pos == p - 3 * ErasingBelow(cs, |cs|, p + 3)
  {
    var f := Fan(ext, [], cs, p);
    assert f.cursors[..|cs|] == cs[..|cs|];
    BackFanMoves(v, cs, f, |cs|);
    BackFanLogs(v, cs, f, |cs|);
    BackFanPrimary(v, cs, f, |cs|);
  }

  /** Where a key of the hex pane leaves a cursor standing at column c: a digit advances it, any other key leaves it. */
  function Lands(c: int, digit: bool): int
  {
    if digit then Advance(c) else c
  }

  /**
   * Whether a cursor at column c pushes the cursors after it in insert
   * mode: it lands on the second digit of a byte (model/model.py:454).
   */
  predicate Pushes(c: int, digit: bool)
  {
    (Lands(c, digit) - 1) % 3 == 0
  }

  /** How many of the cursors cs[lo..hi] push. */
  function Pushing(cs: seq<int>, digit: bool, lo: nat, hi: nat): nat
    requires lo <= hi <= |cs|
    decreases hi - lo
  {
    if lo == hi then 0 else (if Pushes(cs[lo], digit) then 1 else 0) + Pushing(cs, digit, lo + 1, hi)
  }

  /** How many of the cursors from lo on push and land before column t. */
  function PushingBelow(cs: seq<int>, digit: bool, lo: nat, t: int): nat
    requires lo <= |cs|
    decreases |cs| - lo
  {
    if lo == |cs| then 0
    else (if Pushes(cs[lo], digit) && Lands(cs[lo], digit) < t then 1 else 0) + PushingBelow(cs, digit, lo + 1, t)
  }

  /** The landing columns of the cursors from lo on never decrease. */
  predicate LandsInOrder(cs: seq<int>, digit: bool, lo: nat)
  {
    forall j, k :: lo <= j < k < |cs| ==> Lands(cs[j], digit) <= Lands(cs[k], digit)
  }

  /** The pushing offset is a whole number of bytes, so it does not change which landings push. */
  lemma PushesAtOffset(c: int, digit: bool, offset: int)
    requires offset % 3 == 0
    ensures (offset + Lands(c, digit) - 1) % 3 == 0 <==> Pushes(c, digit)
  {
  }

  /** The edit at one cursor of the replay lands it where Lands says. */
  lemma HexEditLands(v: View, ext: Overlay, c: int, ch: string, flag: bool)
    requires HexEditOk(v, ext, c, ch, flag)
    ensures HexEdit(v, ext, c, ch, flag).pos == Lands(c, IsHexChar(ch))
  {
  }

  /**
   * In insert mode the replay from cursor i on lands every remaining cursor
   * where a lone cursor would land, pushed three columns further for every
   * earlier cursor of this stretch that landed on a byte's second digit.
   */
  lemma {:induction false} InsertFanMoves(v: View, cs: seq<int>, f: Fan, i: nat, offset: int, ch: string)
    requires i <= |cs| == |f.cursors| && offset % 3 == 0
    requires InputFanOk(v, f.ext, cs, i, ch, false)
    ensures var r := InputFan(v, cs, f, i, offset, ch, false);
            var digit := IsHexChar(ch);
            forall j :: i <= j < |cs| ==> r.cursors[j] == offset + Lands(cs[j], digit) + 3 * Pushing(cs, digit, i, j)
    decreases |cs| - i
  {
    if i < |cs| {
      var f', offset' := InsertStep(v, cs, f, i, offset, ch);
      InsertFanMoves(v, cs, f', i + 1, offset', ch);
      var r := InputFan(v, cs, f', i + 1, offset', ch, false);
      PushTurn(cs, IsHexChar(ch), i, offset, offset', r.cursors, offset + Lands(cs[i], IsHexChar(ch)));
    }
  }

  /** One insert-mode replay step, in terms of where cursor i lands and whether it pushes. */
  lemma InsertStep(v: View, cs: seq<int>, f: Fan, i: nat, offset: int, ch: string) returns (f': Fan, offset': int)
    requires i < |cs| == |f.cursors| && offset % 3 == 0
    requires InputFanOk(v, f.ext, cs, i, ch, false)
    ensures var digit := IsHexChar(ch);
            var landed := offset + Lands(cs[i], digit);
            && |f'.cursors| == |cs| && f'.cursors[..i + 1][i] == landed
            && f'.pos == (if Pushes(cs[i], digit) && landed < f.pos - 3 then f.pos + 3 else f.pos)
            && offset' == (if Pushes(cs[i], digit) then offset + 3 else offset)
            && offset' % 3 == 0
            && InputFanOk(v, f'.ext, cs, i + 1, ch, false)
            && InputFan(v, cs, f', i + 1, offset', ch, false) == InputFan(v, cs, f, i, offset, ch, false)
  {
    var digit := IsHexChar(ch);
    var e := HexEdit(v, f.ext, cs[i], ch, false);
    var landed := offset + e.pos;
    HexEditLands(v, f.ext, cs[i], ch, false);
    PushesAtOffset(cs[i], digit, offset);
    var push := Pushes(cs[i], digit);
    f' := Fan(e.ext, f.log + e.log, f.cursors[i := landed], if push && landed < f.pos - 3 then f.pos + 3 else f.pos);
    offset' := if push then offset + 3 else offset;
    InputFanTurn(v, cs, f, i, offset, ch, false, landed, f', offset');
  }

  /** One insert-mode step: cursor i lands, and the later ones see the offset it pushed. */
  lemma PushTurn(cs: seq<int>, digit: bool, i: nat, offset: int, offset': int, rc: seq<int>, landed: int)
    requires i < |cs| == |rc| && rc[..i + 1][i] == landed && landed == offset + Lands(cs[i], digit)
    requires offset' == if Pushes(cs[i], digit) then offset + 3 else offset
    requires forall j :: i + 1 <= j < |cs| ==> rc[j] == offset' + Lands(cs[j], digit) + 3 * Pushing(cs, digit, i + 1, j)
    ensures forall j :: i <= j < |cs| ==> rc[j] == offset + Lands(cs[j], digit) + 3 * Pushing(cs, digit, i, j)
  {
    forall j | i <= j < |cs|
      ensures rc[j] == offset + Lands(cs[j], digit) + 3 * Pushing(cs, digit, i, j)
    {
      if j == i {
        assert rc[j] == rc[..i + 1][i];
      }
    }
  }

  /** No cursor from lo on lands before column t, so none counts below t or below anything smaller. */
  lemma {:induction false} PushingBelowNone(cs: seq<int>, digit: bool, lo: nat, t: int, t': int)
    requires lo <= |cs| && t' <= t
    requires forall j :: lo <= j < |cs| ==> t <= Lands(cs[j], digit)
    ensures PushingBelow(cs, digit, lo, t) == 0 && PushingBelow(cs, digit, lo, t') == 0
    decreases |cs| - lo
  {
    if lo < |cs| {
      PushingBelowNone(cs, digit, lo + 1, t, t');
    }
  }

  /**
   * The primary position the insert-mode replay leaves, from cursor i on
   * with the given offset and position: every pushing cursor moves the
   * offset, and the position too when it lands more than three columns
   * before it (model/model.py:454-458).
   */
  function PrimaryAfter(cs: seq<int>, digit: bool, i: nat, offset: int, pos: int): int
    requires i <= |cs|
    decreases |cs| - i
  {
    if i == |cs| then pos
    else
      var push := Pushes(cs[i], digit);
      PrimaryAfter(cs, digit, i + 1, if push then offset + 3 else offset,
                   if push && offset + Lands(cs[i], digit) < pos - 3 then pos + 3 else pos)
  }

  /** The insert-mode replay moves the primary position as PrimaryAfter does. */
  lemma {:induction false} InsertFanTracksPrimary(v: View, cs: seq<int>, f: Fan, i: nat, offset: int, ch: string)
    requires i <= |cs| == |f.cursors| && offset % 3 == 0
    requires InputFanOk(v, f.ext, cs, i, ch, false)
    ensures InputFan(v, cs, f, i, offset, ch, false).pos == PrimaryAfter(cs, IsHexChar(ch), i, offset, f.pos)
    decreases |cs| - i
  {
    if i < |cs| {
      var f', offset' := InsertStep(v, cs, f, i, offset, ch);
      InsertFanTracksPrimary(v, cs, f', i + 1, offset', ch);
    }
  }

  /**
   * PrimaryAfter in closed form: three columns for every pushing cursor
   * that lands before column pos - offset - 3, when landings come in order.
   * The position moves with each such push, so once a pushing cursor lands
   * at or after it, no later one moves it.
   */
  lemma {:induction false} PrimaryAfterCount(cs: seq<int>, digit: bool, i: nat, offset: int, pos: int)
    requires i <= |cs| && LandsInOrder(cs, digit, i)
    ensures PrimaryAfter(cs, digit, i, offset, pos) == pos + 3 * PushingBelow(cs, digit, i, pos - offset - 3)
    decreases |cs| - i
  {
    if i < |cs| {
      var push := Pushes(cs[i], digit);
      var pos' := if push && offset + Lands(cs[i], digit) < pos - 3 then pos + 3 else pos;
      var offset' := if push then offset + 3 else offset;
      LandsInOrderTail(cs, digit, i);
      PrimaryAfterCount(cs, digit, i + 1, offset', pos');
      PrimaryTurn(cs, digit, i, pos, offset, pos', offset', PrimaryAfter(cs, digit, i + 1, offset', pos'));
    }
  }

  /** The primary position after the insert-mode replay from cursor i on, in closed form. */
  lemma InsertFanPrimary(v: View, cs: seq<int>, f: Fan, i: nat, offset: int, ch: string)
    requires i <= |cs| == |f.cursors| && offset % 3 == 0
    requires InputFanOk(v, f.ext, cs, i, ch, false)
    requires LandsInOrder(cs, IsHexChar(ch), i)
    ensures InputFan(v, cs, f, i, offset, ch, false).pos == f.pos + 3 * PushingBelow(cs, IsHexChar(ch), i, f.pos - offset - 3)
  {
    InsertFanTracksPrimary(v, cs, f, i, offset, ch);
    PrimaryAfterCount(cs, IsHexChar(ch), i, offset, f.pos);
  }

  /** Landings in order from i on are in order from i + 1 on. */
  lemma LandsInOrderTail(cs: seq<int>, digit: bool, i: nat)
    requires LandsInOrder(cs, digit, i)
    ensures LandsInOrder(cs, digit, i + 1)
  {
  }

  /** One turn of InsertFanPrimary on the positions alone. */
  lemma PrimaryTurn(cs: seq<int>, digit: bool, i: nat, pos: int, offset: int, pos': int, offset': int, rpos: int)
    requires i < |cs| && LandsInOrder(cs, digit, i)
    requires pos' == if Pushes(cs[i], digit) && offset + Lands(cs[i], digit) < pos - 3 then pos + 3 else pos
    requires offset' == if Pushes(cs[i], digit) then offset + 3 else offset
    requires rpos == pos' + 3 * PushingBelow(cs, digit, i + 1, pos' - offset' - 3)
    ensures rpos == pos + 3 * PushingBelow(cs, digit, i, pos - offset - 3)
  {
    var t := pos - offset - 3;
    if Pushes(cs[i], digit) && t <= Lands(cs[i], digit) {
      PushingBelowNone(cs, digit, i + 1, t, t - 3);
    }
  }

  /** Shifting the cursors after c forward keeps a strictly sorted list strictly sorted. */
  lemma ShiftKeepsSorted(cs: seq<int>, c: int, d: int)
    requires StrictlySorted(cs) && d >= 0
    ensures StrictlySorted(ShiftAfter(cs, c, d))
  {
  }

  /** The cursors an insert-mode replay starts from land in order. */
  lemma InsertCursorsInOrder(cursors: seq<int>, p: int, ch: string, digit: bool)
    requires ch != ""
    ensures LandsInOrder(FanCursors(cursors, p, ch, false), digit, 0)
  {
    var cs := FanCursors(cursors, p, ch, false);
    ShiftKeepsSorted(Distinct(cursors), p - 3, 3);
    forall j, k | 0 <= j < k < |cs|
      ensures Lands(cs[j], digit) <= Lands(cs[k], digit)
    {
      AdvanceMonotone(cs[j], cs[k]);
    }
  }

  /**
   * A hex-pane key in insert mode with secondary cursors (model/model.py:441-460):
   * cursor j lands where a lone cursor would, pushed three columns for every
   * earlier cursor that landed on a byte's second digit; the primary position
   * moves three columns for every such cursor landing before column p - 3;
   * one record per cursor for a digit.
   */
  lemma InsertFan(v: View, ext: Overlay, cursors: seq<int>, p: int, ch: string)
    requires ch != "" && MultiOk(v, ext, cursors, p, ch, false)
    ensures var cs := FanCursors(cursors, p, ch, false);
            var r := Multi(v, ext, cursors, p, ch, false);
            var digit := IsHexChar(ch);
            && |r.cursors| == |cs|
            && (forall j :: 0 <= j < |cs| ==> r.cursors[j] == Lands(cs[j], digit) + 3 * Pushing(cs, digit, 0, j))
            && r.pos == p + 3 * PushingBelow(cs, digit, 0, p - 3)
            && |r.log| == if digit then |cs| else 0
  {
    var cs := FanCursors(cursors, p, ch, false);
    assert Multi(v, ext, cursors, p, ch, false) == InputFan(v, cs, Fan(ext, [], cs, p), 0, 0, ch, false);
    InsertCursorsInOrder(cursors, p, ch, IsHexChar(ch));
    InsertFanWhole(v, ext, cs, p, ch);
  }

  /** InsertFanMoves and InsertFanPrimary over a whole list of cursors, from an empty log and no offset. */
  lemma InsertFanWhole(v: View, ext: Overlay, cs: seq<int>, p: int, ch: string)
    requires InputFanOk(v, ext, cs, 0, ch, false) && LandsInOrder(cs, IsHexChar(ch), 0)
    ensures var r := InputFan(v, cs, Fan(ext, [], cs, p), 0, 0, ch, false);
            var digit := IsHexChar(ch);
            && (forall j :: 0 <= j < |cs| ==> r.cursors[j] == Lands(cs[j], digit) + 3 * Pushing(cs, digit, 0, j))
            && r.pos == p + 3 * PushingBelow(cs, digit, 0, p - 3)
  {
    var f := Fan(ext, [], cs, p);
    InsertFanMoves(v, cs, f, 0, 0, ch);
    InsertFanPrimary(v, cs, f, 0, 0, ch);
  }

  /** Every cursor on a byte boundary pushes when a digit is typed. */
  lemma {:induction false} AllPushAtBoundaries(cs: seq<int>, hi: nat)
    requires hi <= |cs|
    requires forall j :: 0 <= j < hi ==> cs[j] % 3 == 0
    ensures Pushing(cs, true, 0, hi) == hi
    decreases hi
  {
    if hi > 0 {
      AllPushAtBoundaries(cs, hi - 1);
      PushingSplit(cs, true, 0, hi - 1, hi);
    }
  }

  /** Counting pushes over [lo, hi) splits at any mid. */
  lemma {:induction false} PushingSplit(cs: seq<int>, digit: bool, lo: nat, mid: nat, hi: nat)
    requires lo <= mid <= hi <= |cs|
    ensures Pushing(cs, digit, lo, hi) == Pushing(cs, digit, lo, mid) + Pushing(cs, digit, mid, hi)
    decreases mid - lo
  {
    if lo < mid {
      PushingSplit(cs, digit, lo + 1, mid, hi);
    }
  }

  /** Typing a digit in insert mode with every cursor on a byte boundary: cursor j ends at cs[j] + 1 + 3 * j. */
  lemma InsertAtBoundaries(v: View, ext: Overlay, cursors: seq<int>, p: int, ch: string)
    requires IsHexChar(ch) && MultiOk(v, ext, cursors, p, ch, false)
    requires forall c :: c in cursors ==> c % 3 == 0
    ensures var cs := FanCursors(cursors, p, ch, false);
            var r := Multi(v, ext, cursors, p, ch, false);
            forall j :: 0 <= j < |cs| ==> r.cursors[j] == cs[j] + 1 + 3 * j
  {
    var cs := FanCursors(cursors, p, ch, false);
    BoundariesKept(cursors, p, ch);
    InsertFan(v, ext, cursors, p, ch);
    forall j | 0 <= j < |cs|
      ensures Pushing(cs, true, 0, j) == j
    {
      AllPushAtBoundaries(cs, j);
    }
  }

  /** Cursors all on byte boundaries stay on them in the list an insert-mode replay starts from. */
  lemma BoundariesKept(cursors: seq<int>, p: int, ch: string)
    requires ch != "" && forall c :: c in cursors ==> c % 3 == 0
    ensures var cs := FanCursors(cursors, p, ch, false);
            forall j :: 0 <= j < |cs| ==> cs[j] % 3 == 0
  {
    var d := Distinct(cursors);
    assert forall j :: 0 <= j < |d| ==> d[j] in cursors;
    ShiftKeepsBoundaries(d, p - 3);
    assert FanCursors(cursors, p, ch, false) == d || FanCursors(cursors, p, ch, false) == ShiftAfter(d, p - 3, 3);
  }

  /** Moving cursors by a whole byte keeps them on byte boundaries. */
  lemma ShiftKeepsBoundaries(cs: seq<int>, c: int)
    requires forall j :: 0 <= j < |cs| ==> cs[j] % 3 == 0
    ensures var r := ShiftAfter(cs, c, 3);
            forall j :: 0 <= j < |r| ==> r[j] % 3 == 0
  {
    var r := ShiftAfter(cs, c, 3);
    forall j | 0 <= j < |r|
      ensures r[j] % 3 == 0
    {
      assert r[j] == cs[j] || r[j] == cs[j] + 3;
    }
  }

  // -----------------------------------------------------------------------
  // How the single-cursor edits fit together
  // -----------------------------------------------------------------------

  /**
   * Typing the second digit of a byte leaves the cursor on the next byte
   * boundary, and a backspace there deletes that same byte and returns to
   * the byte's first column.
   */
  lemma HexSecondDigitThenBackspace(v: View, ext: Overlay, p: int, ch: string, flag: bool)
    requires p % 3 == 1 && IsHexChar(ch) && HexEditOk(v, ext, p, ch, flag)
    ensures var q := HexEdit(v, ext, p, ch, flag).pos;
            && q % 3 == 0 && q != 0
            && q / 3 - 1 == p / 3
            && (p / 3 in v.index ==> HexBackspaceOk(v, q) && HexBackspace(v, ext, q).pos == p - 1)
  {
  }

  /**
   * A text-pane input inside the window followed by a backspace: the
   * backspace deletes the window byte the input edited and puts the cursor
   * back where it was.
   */
  lemma TextInputThenBackspace(v: View, ext: Overlay, p: int, ch: char, flag: bool)
    requires p % 17 != 16 && TextIndex(p) != |v.shown|
    requires IsAlnum(ch) && TextEditOk(v, ext, p, ch, flag)
    requires TextIndex(p) in v.index
    ensures var q := TextEdit(v, ext, p, ch, flag).pos;
            && q - q / 17 - 1 == TextIndex(p)
            && TextBackspaceOk(v, q)
            && TextBackspace(v, ext, q).pos == p
  {
    TextColumns(p);
  }

  /** The column arithmetic behind TextInputThenBackspace. */
  lemma TextColumns(p: int)
    requires p % 17 != 16
    ensures var q := p + 1 + (if p % 17 == 15 then 1 else 0);
            && q - q / 17 - 1 == p - p / 17
            && (if (q - 1) % 17 == 16 then q - 2 else q - 1) == p
  {
    var k := p / 17;
    assert p == 17 * k + p % 17;
    var q := p + 1 + (if p % 17 == 15 then 1 else 0);
    if p % 17 == 15 {
      assert q == 17 * (k + 1) + 0;
      assert q / 17 == k + 1;
    } else {
      assert q == 17 * k + (p % 17 + 1);
      assert q / 17 == k;
    }
  }

  /**
   * Overwriting a byte and deleting it again, as tests/model_test.py:25-28
   * do, leaves an empty entry at its anchor: the byte is deleted.
   */
  lemma OverwriteThenDelete(v: View, ext: Overlay, index: int, b: Byte)
    requires index in v.index && v.index[index] !in ext
    requires index - 1 in v.index ==> v.index[index - 1] != v.index[index]
    ensures AddByteOk(v, ext, index, true)
    ensures var s := AddByteStep(v, ext, index, b, true);
            DeleteStep(v, s.ext, index).ext == ext[v.index[index] := []]
  {
    var a := v.index[index];
    var s := AddByteStep(v, ext, index, b, true);
    assert s.ext == ext[a := [b]];
    assert Run(v.index, index - 1, a) == 0;
  }
}
