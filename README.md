# Hex editor edit buffer, in Dafny

This project models the core of a small hex editor written in Python: the
edit buffer `Buffer` (model/model.py) and its undo/redo logs. There are two
logs, `model/logging.py` and the older `model/hex_logging.py`.

The buffer never rewrites the file being edited. Pending edits live in an
**overlay**: a map from *anchor* offsets of the base file to the bytes that
replace the one base byte at that anchor. An empty entry means the byte was
deleted. One byte means it was overwritten. Two or more bytes mean bytes
were inserted. The editor shows a **window** (`shown`) of the edited
document. It is filled until it holds at least 30 rows of 16 bytes (480
bytes) or the file ends. An entry always joins the window whole, so the
window can run past 480 bytes. The map `byte_index` gives, for each
window position, the anchor it comes from. Every edit is logged as a record
on an undo stack. Secondary **cursors** replay each hex-pane key at their
own positions.

Modules, one per concern of the source:

| file | module | models |
|---|---|---|
| bytes.dfy | `Bytes` | the byte type, the overlay, the `bytearray` insert/pop/assign the code applies to entries, the sums behind `get_size` and `get_position`, and `sorted` over a key set |
| logging.dfy | `EditLog` | `LogRecord` and the `Logger` class of model/logging.py: its overlay and two stacks are fields, and `add`/`undo`/`redo` are methods that update them in place |
| hex_logging.dfy | `LegacyLog` | the older `LogRecord`/`Logger` of model/hex_logging.py. Undo puts back a snapshot. Redo re-derives the edit and pushes a fresh record. Redo's cases are a pure function `RedoStep`, which the in-place methods are proved to follow |
| render.dfy | `Render` | `to_hex`, `to_text`, `char_decrypt`, `tens_count` and `units_count` as functions (the source builds them from comprehensions and joins), with layout and round-trip lemmas |
| document.dfy | `Document` | the edited document (the base with every entry spliced in), `write_data` as written and a corrected merge, and what each one saves |
| edits.dfy | `Edits` | each edit of the buffer as a pure function of the state it reads: `add_byte`, `delete_byte`, the four key handlers, and the multi-cursor replay |
| buffer.dfy | `HexBuffer` | the `Buffer` class. It has the base file, the shared `Logger`, `shown`, `byte_index`, `cursors` and the busy flag as fields. Its loops (`update_data`, `write_data`, `to_hex`, the replay loops of `handle_multicursor`) are methods with loop invariants. Each method is proved to compute what the matching `Edits`, `Document` or `Render` function describes |

`handle_multicursor` and the two hex-pane handlers call each other. This is
modelled as mutually recursive methods. Termination uses the busy flag: a
replay runs only when the flag is clear, and it sets the flag first.

Python's `bytearray` entries are shared between the buffer and its logger.
Here they are the one `extended` field of the `Logger` object that the
buffer holds. A `LogRecord` keeps a copy of the entry it snapshots
(model/logging.py:30, model/hex_logging.py:7). That copy is a sequence
value here, so later edits of the entry cannot change it.

`delete_byte` logs an insert-flagged record with no byte. Undoing that
record pops the byte at its shift again, so it does not restore the deleted
byte. The model keeps this behaviour, because it is what the code does.

## Model

| member | source | states |
|---|---|---|
| Bytes.Insert | model/logging.py:85-86 | `bytearray.insert` adds one byte: the new byte sits at the index, or at the end past it, and the rest keep their order |
| Bytes.PopAt | model/logging.py:66 | `bytearray.pop(i)` removes exactly byte i; bytes before i stay and bytes after it move down one |
| Bytes.Assign | model/model.py:207-208 | assigning a byte of an entry changes that byte only and keeps the length |
| Bytes.PopAfterInsert | model/logging.py:83-88 | popping at i after inserting at i gives the entry back |
| Bytes.InsertAfterPop | model/logging.py:64-68 | inserting the popped byte back at i gives the entry back |
| Bytes.PySlice | model/model.py:167 | Python's `s[a:b]` is never longer than s and is the plain slice for bounds inside s |
| Bytes.SortedSeq | model/model.py:55 | `sorted(keys)` of a key set is strictly increasing and holds exactly the set's elements |
| Bytes.LogicalPrefixIsExtra | model/model.py:137-146 | the logical bytes before offset n are n plus what the entries anchored below n add |
| Bytes.LogicalPrefixNoEdits | model/model.py:137-146 | with no edits, offset n is logical position n (so `get_position(1, 0)` is 1) |
| Bytes.ExtraUpdate | model/model.py:41-44 | replacing or adding one entry changes the size sum by the change in that entry's length |
| EditLog.RemoveAt | model/logging.py:66-68 | popping from an entry drops the key when the entry had one byte, otherwise it stores the shorter entry |
| EditLog.InsertAt | model/logging.py:84-88 | inserting creates a one-byte entry for an absent key or lengthens the entry by one; other keys are untouched |
| EditLog.UndoOverlay | model/logging.py:64-75 | undoing an insert record on an absent key changes nothing; undoing any other record leaves its key present |
| EditLog.RedoOverlay | model/logging.py:83-92 | redoing an insert record leaves its key present; redoing any other record adds no key |
| EditLog.Logger.constructor | model/logging.py:44-47 | the logger starts on the given overlay with both stacks empty |
| EditLog.Logger.Add | model/logging.py:49-57 | the record is pushed on the undo stack, the redo stack is cleared, and the overlay is unchanged |
| EditLog.Logger.Undo | model/logging.py:59-76 | an empty undo stack changes nothing; otherwise the top record moves from undo to redo and the overlay becomes `UndoOverlay` of it |
| EditLog.Logger.Redo | model/logging.py:78-93 | an empty redo stack changes nothing; otherwise the top record moves from redo to undo and the overlay becomes `RedoOverlay` of it |
| EditLog.UndoInsertSize | model/logging.py:64-68 | undoing an insert record shrinks the document by one byte exactly when the entry had two or more bytes |
| EditLog.UndoDeleteSize | model/logging.py:69-75 | undoing any other record grows the document by one byte exactly when the key was present |
| EditLog.RedoUndoInsert | model/logging.py:64-88 | an insert record whose byte sits at its shift: undo then redo gives the overlay back, e.g. {0: [1]} to {} to {0: [1]} |
| EditLog.UndoRedoInsert | model/logging.py:64-88 | redo then undo of an insert record gives the overlay back when its key holds a nonempty entry or is absent |
| EditLog.RedoUndoDelete | model/logging.py:69-92 | undo then redo of a delete-flagged record gives the overlay back |
| EditLog.UndoRedoDelete | model/logging.py:69-92 | redo then undo of a delete-flagged record gives the overlay back when the snapshot holds the byte that redo removes |
| LegacyLog.UndoOverlay | model/hex_logging.py:27-30 | undo puts the snapshot back under the record's key, or removes the key when there is no snapshot; every other key is unchanged |
| LegacyLog.Logger.constructor | model/hex_logging.py:14-17 | the logger starts on the given overlay with both stacks empty |
| LegacyLog.Logger.Add | model/hex_logging.py:20-22 | the record is pushed, the redo stack is cleared, and the overlay is unchanged |
| LegacyLog.Logger.Undo | model/hex_logging.py:24-33 | an empty stack changes nothing; otherwise the top record moves to redo and the overlay becomes `UndoOverlay` of it |
| LegacyLog.Logger.Redo | model/hex_logging.py:35-91 | an empty stack changes nothing; otherwise the top record is popped, and the overlay and undo stack follow `RedoStep`: unchanged when it raises, or the new overlay plus the pushed record |
| LegacyLog.Logger.RedoDeletion | model/hex_logging.py:38-58 | redo of a record with no byte follows `RedoStep` |
| LegacyLog.Logger.RedoWrite | model/hex_logging.py:59-88 | redo of a record with a byte follows `RedoStep` |
| LegacyLog.UndoRestoresSnapshot | model/hex_logging.py:24-33 | a record that snapshots anchor k before an edit confined to k is undone exactly |
| LegacyLog.UndoInvertsRedo | model/hex_logging.py:35-91 | every redo that does not raise is taken back exactly by undoing the record it pushed |
| LegacyLog.RedoConfined | model/hex_logging.py:35-91 | a successful redo writes only the anchor of its pushed record, and that record snapshots the anchor as it was before |
| LegacyLog.RedoKeepsAnchors | model/hex_logging.py:35-91 | redo never removes an anchor and adds at most one |
| LegacyLog.RedoInsertsAfterShift | model/hex_logging.py:80-88 | a non-insert record with a byte, inside its entry, inserts the byte at shift + 1 and pushes a record with shift + 1 |
| Render.CharDecrypt | model/model.py:400-409 | one character per byte: '.' below decimal 20 and from 128 up, the byte itself otherwise; never a line break |
| Render.ToTextLayout | model/model.py:380-389 | the text pane has len + len/16 characters, byte i's character at column i + i/16, and a line break closing every full row |
| Render.ShortTextLayout | model/model.py:388-389 | under 16 bytes, the text pane is the decoded characters alone (the leading line break is stripped) |
| Render.LongTextLayout | model/model.py:383-389 | 16 bytes or more: the same layout as `ToTextLayout` |
| Render.PadRow | model/model.py:362-365 | the cell list is padded to a whole number of 16-cell rows |
| Render.HexGridLayout | model/model.py:367-370 | in the grid before stripping, byte i's digits are at columns 3i and 3i+1, with a separator after every pair but the last |
| Render.ToHexLayout | model/model.py:359-371 | an empty window gives " "; otherwise the pane has 3·len characters, byte i's lowercase pair at 3i, then a line break after every 16th byte except the last and a space elsewhere |
| Render.HexRoundTrip | model/model.py:359-371 | reading the pairs of the hex pane back gives the window |
| Render.TensLineValue | model/model.py:340-341 | ruler line x is the offset 16x in hex, zero-padded to eight digits while x < 16^7, and it ends in a line break |
| Render.TensLinesLayout | model/model.py:339-341 | the ruler lines for rows lo..hi are nine columns each, line r for row lo + r |
| Render.TensCountLayout | model/model.py:339-341 | the ruler for a window of n bytes has n/16 + 1 lines, line r giving the offset of row `tens_offset` + r |
| Render.UnitsMatchGrid | model/model.py:350 | the column ruler plus a space is the hex pane of bytes 0..15 |
| Document.Read | model/model.py:60 | reading [lo, hi) inside the file gives exactly those base bytes |
| Document.DocPrefixLength | model/model.py:137-146 | the edited document up to base offset n is `LogicalPrefix(n)` bytes long: `get_position` is an offset in it |
| Document.DocumentSize | model/model.py:41-44 | the edited document is `file_size` plus the sum of (len(entry) − 1) bytes long |
| Document.SaveNoEdits | model/model.py:53-68 | with no edits the save reproduces the file byte for byte |
| Document.SaveOverwrites | model/model.py:53-68 | with one-byte entries inside the file, the save has the file's length and holds each entry's byte at its anchor and the base byte elsewhere |
| Document.OverwritesSaveAlike | model/model.py:63-65 | with one-byte entries, the save as written and the corrected save write the same bytes |
| Document.SaveFixedIsDocument | model/model.py:53-68 | the corrected save writes exactly the edited document, of `get_size` bytes |
| Document.DeletedByteReappears | model/model.py:63-65 | as written, a deleted first byte reappears in the saved file |
| Document.InsertionSwallowsByte | model/model.py:63-65 | as written, an insertion drops the base byte after it from the saved file |
| Edits.RunAgree | model/model.py:195-201 | the shift count reads only the index at and before its position |
| Edits.AddByteStep | model/model.py:191-234 | `add_byte` logs a record carrying the byte, under a key it leaves present, and changes no other key |
| Edits.AddByteSize | model/model.py:191-234 | overwriting keeps the document size; inserting adds exactly one byte, except when the byte to be followed is missing |
| Edits.FreshOverwriteUndoRedo | model/model.py:212-227 | overwriting an unedited anchor creates the entry [b], which undo removes and redo restores |
| Edits.DeleteStep | model/model.py:271-290 | `delete_byte` logs an insert-flagged record with no byte, under a key it leaves present, and changes no other key |
| Edits.DeleteNotRedoable | model/logging.py:86-90 | the record `delete_byte` logs fails redo's precondition on every overlay: redo would read the first byte of its empty `new_byte` |
| Edits.DeleteSize | model/model.py:271-290 | deleting removes one byte, unless the shift falls outside the entry (the caught IndexError) |
| Edits.OverwriteThenDelete | model/model.py:271-289 | overwriting an unedited byte and then deleting it leaves an empty entry at its anchor |
| Edits.HexEdit | model/model.py:162-176 | a key outside 0-9a-f changes nothing; a hex digit logs one record and moves the cursor one column at a byte boundary, two inside a byte |
| Edits.HexBackspace | model/model.py:320-323 | at a nonzero byte boundary, backspace logs one deletion and moves three columns back; elsewhere it changes nothing |
| Edits.TextEdit | model/model.py:250-262 | a non-alphanumeric key changes nothing; otherwise one record, and the cursor moves one column, plus one at column 15 of a row, plus one at the end of the window |
| Edits.TextBackspace | model/model.py:302-308 | one deletion; the cursor moves back one column, or two when it lands on a line break |
| Edits.Distinct | model/model.py:427-428 | `sorted(set(cursors))` is strictly increasing and holds exactly the cursors |
| Edits.ShiftAfter | model/model.py:431-433 | cursors after c move by d and the others stay |
| Edits.InputFan | model/model.py:447-458 | the input replay from cursor i on keeps the cursors before i and logs one record per remaining cursor for a hex digit; where the others land in insert mode is `Edits.InsertFanMoves` |
| Edits.InsertFanMoves | model/model.py:447-458 | in insert mode each replayed cursor lands where a lone edit leaves it, plus the offset it started from, plus three columns for every earlier replayed cursor that landed on a byte's second digit |
| Edits.InsertFanTracksPrimary | model/model.py:455-458 | in insert mode the primary position moves as `PrimaryAfter` says: three columns each time a cursor pushes and lands more than three columns before it |
| Edits.PrimaryAfterCount | model/model.py:455-458 | when the landings come in order, the primary position moves three columns per pushing cursor that lands before position − 3 |
| Edits.InsertFanPrimary | model/model.py:455-458 | the two facts above together: the insert-mode replay moves the primary position three columns per such pushing cursor |
| Edits.InsertCursorsInOrder | model/model.py:426-446 | the list the insert-mode replay starts from (sorted, shifted three columns after an inserted byte) lands its cursors in nondecreasing order |
| Edits.InsertFanWhole | model/model.py:441-460 | the facts above for a replay over every cursor from an empty log |
| Edits.InsertFan | model/model.py:425-460 | insert mode with secondary cursors: cursor j lands where a lone edit leaves it plus three columns per earlier pushing cursor, one record per cursor for a hex digit, and the primary position moves three columns per pushing cursor landing before it |
| Edits.InsertAtBoundaries | model/model.py:425-460 | a hex digit typed in insert mode with every cursor on a byte boundary moves the j-th cursor, in sorted order, to cs[j] + 1 + 3·j |
| Edits.BackFan | model/model.py:434-440 | the backspace replay from cursor i − 1 down leaves the cursors from i on alone; where the others land is `Edits.BackFanMoves` |
| Edits.BackFanMoves | model/model.py:436-440 | each replayed cursor lands where a lone backspace leaves it: three columns back on a nonzero byte boundary, where it stood elsewhere |
| Edits.BackFanLogs | model/model.py:436-440 | the replay logs exactly one deletion per cursor on a nonzero byte boundary |
| Edits.BackFanPrimary | model/model.py:436-439 | the primary position moves back three columns for each such cursor before position + 3, when those come in increasing order, since the replay runs from the last cursor down |
| Edits.FanCursorsEraseOrder | model/model.py:426-434 | the list the backspace replay starts from (sorted, shifted back after a deleted byte) keeps the erasing cursors before position + 3 in increasing order |
| Edits.BackFanWhole | model/model.py:434-440 | the three facts above for a replay over every cursor, starting from an empty log |
| Edits.BackspaceFanMoves | model/model.py:425-440 | backspace with secondary cursors: every cursor lands as a lone backspace would, one deletion per cursor on a nonzero byte boundary, and the primary position moves back three columns per such cursor before it |
| Edits.Multi | model/model.py:425-460 | the replay leaves as many cursors as there are distinct cursors; where they land is `Edits.BackspaceFanMoves`, `Edits.OverwriteFanKeepsOrder` and `Edits.InsertFan` |
| Edits.MultiNoCursors | model/model.py:425-460 | with no secondary cursors the replay changes nothing and returns the position |
| Edits.HexInputBusy | model/model.py:177 | inside a running replay, a hex key is only the edit at its own cursor |
| Edits.HexInputSingle | model/model.py:162-178 | with no secondary cursors, a non-hex key changes nothing; a hex digit logs one record and returns p+1 at a byte boundary, p+2 inside a byte |
| Edits.HexBackSingle | model/model.py:320-330 | with no secondary cursors, backspace deletes byte p/3 − 1 and returns p − 3 exactly when p % 3 = 0 and p ≠ 0; otherwise it changes nothing |
| Edits.InputFanLogs | model/model.py:447-456 | a replayed key logs one record per distinct cursor for a hex digit and none otherwise |
| Edits.AdvanceMonotone | model/model.py:171-176 | where a digit typed in overwrite mode leaves a cursor is monotone, and it merges two cursors only from a separator column |
| Edits.OverwriteFanMoves | model/model.py:447-458 | in overwrite mode each replayed cursor moves as a lone cursor would, and the primary position stays |
| Edits.OverwriteFanKeepsOrder | model/model.py:425-460 | in overwrite mode every distinct cursor gets one edit, the primary position stays, and the cursors stay sorted (strictly when none is on a separator column) |
| Edits.HexSecondDigitThenBackspace | model/model.py:172-176 | typing a byte's second digit lands on the next byte boundary, and backspace there deletes that byte and returns to its first column |
| Edits.TextInputThenBackspace | model/model.py:250-262 | a text input inside the window followed by backspace deletes the byte the input edited and puts the cursor back |
| HexBuffer.LocateWindow | model/model.py:80-105 | the split entry's visible bytes open the window consistently with the index, and they are a tail of the entry anchored just before the start; `byte_index[-1]` is the byte before the window start; with no edits the start is 16·s and the window is still empty |
| HexBuffer.MarkBlock | model/model.py:95-97 | the hidden bytes of a split entry get the positions −sh..−1, all mapped to its anchor |
| HexBuffer.ShowSplitEntry | model/model.py:98-102 | the window becomes exactly the visible rest of a split entry, filling positions 0.. and continuing the anchor's run below 0 |
| HexBuffer.FillWindow | model/model.py:107-124 | the filled window stays consistent with the index and in file order, and what it adds is exactly the edited document from start to where filling stopped; with no edits it is the file's bytes from start, up to 480 of them, each indexed to its offset; filling stops at an offset after every shown byte, once the window holds 480 bytes or that offset is past the end of the file |
| HexBuffer.FillTurn | model/model.py:112-124 | one more base offset adds its cell to the document shown so far |
| HexBuffer.ShowOffset | model/model.py:112-124 | one turn of the fill loop appends the cell of base offset p (its entry, or its base byte indexed to p) and keeps the window consistent with the index |
| HexBuffer.ShowEntry | model/model.py:116-120 | exactly the entry's bytes join the window, each indexed to its anchor |
| HexBuffer.WriteAnchors | model/model.py:53-68 | the write loop produces exactly `WriteFrom` over the keys |
| HexBuffer.ShiftCursors | model/model.py:429-433 | the shifting loop moves every cursor after c by d and leaves the others |
| HexBuffer.Buffer.constructor | model/model.py:16-32 | no edits, empty stacks, the window is the first 480 file bytes indexed to their offsets, no secondary cursors |
| HexBuffer.Buffer.UpdateData | model/model.py:70-124 | every window position shows its anchor's byte at its shift, positions follow file order, and with no edits the window is the file from 16·s with `byte_index[i]` = 16·s + i; with edits the window is the tail of the entry split at its start followed by the edited document from the start offset to where filling stopped; that offset lies after every shown byte, and the window is full or the offset is past the end of the file |
| HexBuffer.PlainWindow | model/model.py:107-124 | without edits, a window filled from start is the file's bytes from start on |
| HexBuffer.WindowIsSlice | model/model.py:70-124 | the window `update_data` builds (a split entry's tail, then the document from the start offset on) is a contiguous slice of the edited document |
| HexBuffer.Buffer.GetSize | model/model.py:41-44 | the result is the file size plus what the entries add, which is the length of the edited document |
| HexBuffer.Buffer.GetPosition | model/model.py:137-146 | the result is the offset of anchor `index` in the edited document plus `shift` |
| HexBuffer.Buffer.WriteData | model/model.py:53-68 | the bytes written are the save as written, which is the file itself when there are no edits |
| HexBuffer.Buffer.ShiftOf | model/model.py:195-201 | the shift loop counts the positions directly before i that belong to the same anchor |
| HexBuffer.Buffer.AddByte | model/model.py:191-234 | the overlay becomes `AddByteStep`'s, its record is pushed, and redo is cleared |
| HexBuffer.Buffer.AddedEntry | model/model.py:191-233 | the entry and record computed, without changing anything, are `AddByteStep`'s |
| HexBuffer.Buffer.DeleteByte | model/model.py:271-290 | the overlay becomes `DeleteStep`'s, its record is pushed, and redo is cleared |
| HexBuffer.Buffer.UpdateFromTextPosition | model/model.py:250-262 | overlay, records and returned column are `TextEdit`'s; a non-alphanumeric key leaves the redo stack alone |
| HexBuffer.Buffer.WriteTextChar | model/model.py:251-256 | the add_byte call of an alphanumeric key produces `TextEdit`'s overlay and record |
| HexBuffer.Buffer.BackspaceFromText | model/model.py:302-308 | overlay, record and returned column are `TextBackspace`'s |
| HexBuffer.Buffer.UpdateFromHexPosition | model/model.py:162-178 | overlay, records, cursors and returned column are `HexInput`'s: the edit at the cursor, then the replay unless one is running |
| HexBuffer.Buffer.WriteHexDigit | model/model.py:162-176 | the nibble edit at the cursor produces `HexEdit`'s overlay, record and column |
| HexBuffer.Buffer.BackspaceFromHex | model/model.py:320-330 | overlay, records, cursors and returned column are `HexBack`'s |
| HexBuffer.Buffer.EraseBeforeHex | model/model.py:320-323 | the deletion at the cursor is `HexBackspace`'s |
| HexBuffer.Buffer.HandleMulticursor | model/model.py:425-460 | when busy it changes nothing and returns the position; otherwise it does what `Multi` describes; the flag ends as it began |
| HexBuffer.Buffer.ReplayBackspace | model/model.py:434-440 | the backspace loop produces `BackFan` over all cursors |
| HexBuffer.Buffer.ReplayBackspaceTurn | model/model.py:435-440 | one turn of that loop takes `BackFan` from cursor i to cursor i − 1 |
| HexBuffer.Buffer.ReplayInput | model/model.py:447-458 | the input loop produces `InputFan` from cursor 0 |
| HexBuffer.Buffer.ReplayInputTurn | model/model.py:448-458 | one turn of that loop takes `InputFan` from cursor i to cursor i + 1 |
| HexBuffer.Buffer.ReplayKeyAt | model/model.py:449-453 | the replayed key at cursor i is `HexEdit` at that cursor, stored back with the offset added |
| HexBuffer.Buffer.ToHex | model/model.py:359-371 | the padding loop builds `Render.ToHex`; the result reads back as the window and has 3·len characters (1 when empty) |

## Left out

- The Qt user interface, file dialogs, localization, the controller's signal wiring and the cursor manager. None of them holds buffer state. The controller's scrollbar maximum is not part of this model.
- Opening the file and `os.path.getsize` (model/model.py:26-27). The file is the sequence `base`, and its size is `|base|`. Seeking and reading are indexing into `base`. Writing to the output file is the returned byte sequence.
- `chunk_size` (model/model.py:18) is never read, so it is not modelled.
- Text encoding is UTF-8, as `sys.getdefaultencoding()` returns. A single byte decodes on its own exactly when it is below 0x80. Text input is restricted to ASCII letters and digits, so `char.encode` gives one byte and `str.isalnum` is the ASCII test (`Edits.TextEditOk`).
- `add_byte`'s `bytes` argument is one `Byte`, because every caller passes exactly one byte.
- `bytes.fromhex` is nibble arithmetic on the typed digit and the byte under the cursor.
- Paths where the source raises an uncaught exception are preconditions: a missing `byte_index` key in `delete_byte`, a pop or assign outside a `bytearray`, `bytes.fromhex` of a single digit when a nibble edit finds no byte under the cursor (model/model.py:166-168, 172-174; `Edits.HexEditOk`), an undo that indexes a `None` snapshot, the legacy redo storing `b''` into a non-empty entry (model/hex_logging.py:46), and a redo of any record logged by `delete_byte`. That record is insert-flagged with an empty `new_byte`, and redo reads its first byte (model/logging.py:86-90), so undoing a deletion and then redoing it raises (`Edits.DeleteNotRedoable`). The IndexErrors the source catches are modelled as the no-ops they are.
- `Render.CharDecrypt` follows the code's threshold, decimal 20 (model/model.py:402). Bytes 20 to 31 therefore show as themselves, not as '.'.
- The `byte != ''` test of `char_decrypt` (model/model.py:401) compares an int with a string and is always true, so it is not modelled.
- `HexBuffer.Buffer.WriteData` models `write_data` as written. The other members that speak of the document (`GetSize`, `GetPosition`, `Document.DocumentSize`) use the edited document, which is what the corrected save `Document.SaveFixed` writes; see Findings.
- LegacyLog.RedoStep: storing `b''` into an empty entry (model/hex_logging.py:46) follows CPython before 3.12, which checks the index first and raises an IndexError that redo catches, so the redo changes nothing. From CPython 3.12 on the value is checked first, and the TypeError it raises is not caught.
- HexBuffer.LocateWindow: it does not state which base offset the window starts at when entries lie before it, only that what it shows is consistent with the index and is a tail of the entry anchored just before that offset.
- Edits.AddByteStep: its ensures states the record and the keys it touches; the exact entry per case is in its body and in `Edits.AddByteSize` and `Edits.FreshOverwriteUndoRedo`.

## Findings

| source | as written | input that shows it | evidently intended | confidence | as-written member | corrected member |
|---|---|---|---|---|---|---|
| model/model.py:64-65 | after writing an entry, `write_data` moves the read cursor on by the entry's length | base `AB` with byte 0 deleted (entry `[]`) saves `AB`; base `[1, 2, 3]` with `[9, 1]` at anchor 0 saves `[9, 1, 3]` | the cursor moves past the one base byte the entry replaces, so the save is the edited document (`B` and `[9, 1, 2, 3]`) of `get_size` bytes | high (not executed) | Document.DeletedByteReappears | Document.SaveFixedIsDocument |
