/**
 * The edit buffer (model/model.py, class Buffer): a read-only base file,
 * the overlay of pending edits it shares with its undo log, and a window
 * of up to 30 rows of 16 bytes of the edited document together with the
 * map from window positions to the anchors they come from.
 */
module HexBuffer {
  import opened Bytes
  import opened EditLog
  import Edits
  import Document
  import Render

  const RowCount := 30
  const LenByte := 3
  const LenAsciiChar := 16
  const LenAsciiLine := 17
  /** Bytes the window is filled up to: 30 rows of 16. */
  const WindowSize := RowCount * LenAsciiChar

  /** Every anchor is a file offset (all the buffer ever creates). */
  predicate AnchorsNonNegative(ext: Overlay)
  {
    forall k :: k in ext ==> k >= 0
  }

  // -----------------------------------------------------------------------
  // What a window shows
  // -----------------------------------------------------------------------

  /**
   * Window position j shows the byte its anchor contributes there: the
   * entry's byte at the shift add_byte and delete_byte compute (how many
   * positions before j belong to the same anchor), or the base byte of an
   * unedited anchor inside the file.
   */
  predicate ShowsAt(base: seq<Byte>, ext: Overlay, shown: seq<Byte>, bi: map<int, int>, j: int)
    requires 0 <= j < |shown|
  {
    && j in bi
    && var a := bi[j];
       if a in ext then
         var sh := Edits.Run(bi, j - 1, a);
         sh < |ext[a]| && shown[j] == ext[a][sh]
       else
         0 <= a < |base| && shown[j] == base[a]
  }

  predicate Shows(base: seq<Byte>, ext: Overlay, shown: seq<Byte>, bi: map<int, int>)
  {
    forall j :: 0 <= j < |shown| ==> ShowsAt(base, ext, shown, bi, j)
  }

  predicate KeysBelow(bi: map<int, int>, n: int)
  {
    forall k :: k in bi ==> k < n
  }

  predicate ValuesBelow(bi: map<int, int>, n: int)
  {
    forall k :: k in bi ==> bi[k] < n
  }

  /** Later window positions come from later anchors: the window follows file order. */
  predicate Monotone(bi: map<int, int>)
  {
    forall j, k :: j in bi && k in bi && j <= k ==> bi[j] <= bi[k]
  }

  /**
   * t is what of the entry at anchor a reaches into the window: nothing,
   * or a tail of the entry whose first byte lies before the window.
   */
  predicate EntryTail(ext: Overlay, a: int, t: seq<Byte>)
  {
    t == [] || (a in ext && |t| < |ext[a]| && t == ext[a][|ext[a]| - |t|..])
  }

  /** Appending one more shown byte whose anchor and shift are right keeps the window consistent. */
  lemma ShowsExtend(base: seq<Byte>, ext: Overlay, shown: seq<Byte>, bi: map<int, int>, x: Byte, a: int)
    requires Shows(base, ext, shown, bi) && KeysBelow(bi, |shown|)
    requires a in ext ==> Edits.Run(bi, |shown| - 1, a) < |ext[a]| && x == ext[a][Edits.Run(bi, |shown| - 1, a)]
    requires a !in ext ==> 0 <= a < |base| && x == base[a]
    ensures Shows(base, ext, shown + [x], bi[|shown| := a])
  {
    var n := |shown|;
    var bi' := bi[n := a];
    var s' := shown + [x];
    forall j | 0 <= j < |s'|
      ensures ShowsAt(base, ext, s', bi', j)
    {
      if j < n {
        assert ShowsAt(base, ext, shown, bi, j);
      }
      Edits.RunAgree(bi, bi', j - 1, bi'[j]);
    }
  }

  /** A block of positions [lo, hi) all mapped to a, not continued below lo, gives Run hi - lo at its top. */
  lemma {:induction false} RunOfBlock(bi: map<int, int>, lo: int, hi: int, a: int)
    requires lo <= hi
    requires forall k :: lo <= k < hi ==> k in bi && bi[k] == a
    requires lo - 1 !in bi || bi[lo - 1] != a
    ensures Edits.Run(bi, hi - 1, a) == hi - lo
    decreases hi - lo
  {
    if lo < hi {
      RunOfBlock(bi, lo, hi - 1, a);
    }
  }

  /**
   * The first half of update_data (model/model.py:80-105): walks the anchors
   * below the window start in order. An entry that ends before the start
   * moves the start by what it adds; an entry that reaches the start is
   * split, its bytes before the start indexed at negative positions and the
   * rest shown first; the walk stops at the first anchor at or after the
   * start.
   */
  method LocateWindow(base: seq<Byte>, ext: Overlay, s: int) returns (start: int, shown: seq<Byte>, bi: map<int, int>)
    requires s >= 0 && AnchorsNonNegative(ext)
    ensures start >= 0
    ensures Shows(base, ext, shown, bi) && KeysBelow(bi, |shown|) && ValuesBelow(bi, start) && Monotone(bi)
    ensures -1 in bi || (bi == map[] && shown == [])
    ensures -1 in bi ==> bi[-1] == start - 1
    ensures EntryTail(ext, start - 1, shown)
    ensures ext == map[] ==> start == s * LenAsciiChar && shown == [] && bi == map[]
  {
    start := s * LenAsciiChar;
    shown := [];
    bi := map[];
    var keys := SortedSeq(ext.Keys);
    var t := 0;
    while t < |keys|
      invariant 0 <= t <= |keys|
      invariant start >= 0 && shown == []
      invariant bi == map[] || bi == map[-1 := start - 1]
      invariant ext == map[] ==> start == s * LenAsciiChar && bi == map[]
    {
      var i := keys[t];
      assert i in ext;
      if i < start {
        var e := ext[i];
        if i + |e| < start {
          if |e| == 0 {
            start := start + 1;
          } else if |e| > 1 {
            start := start - (|e| - 1);
          }
          bi := map[-1 := start - 1];
        } else {
          var sh := start - i;
          start := i + 1;
          bi := MarkBlock(bi, sh, i);
          shown, bi := ShowSplitEntry(base, ext, bi, e[sh..], i, sh);
          SplitTail(ext, i, sh, shown);
          break;
        }
      } else {
        break;
      }
      t := t + 1;
    }
  }

  /** One more offset before 0 mapped to the same base byte i. */
  lemma BlockGrows(bi: map<int, int>, k: int, i: int)
    requires k >= 0
    requires forall m :: -k <= m < 0 ==> m in bi && bi[m] == i
    requires forall m :: m in bi ==> m <= -1 && (m >= -k || m == -1)
    ensures var bi' := bi[-k - 1 := i];
            && (forall m :: -(k + 1) <= m < 0 ==> m in bi' && bi'[m] == i)
            && (forall m :: m in bi' ==> m <= -1 && (m >= -(k + 1) || m == -1))
  {
  }

  /**
   * The bytes of a split entry that lie before the window start get the
   * negative positions -sh .. -1, all mapped to the entry's offset i
   * (model/model.py:95-97).
   */
  method MarkBlock(bi0: map<int, int>, sh: int, i: int) returns (bi: map<int, int>)
    requires sh >= 0
    requires forall m :: m in bi0 ==> m == -1
    ensures forall m :: -sh <= m < 0 ==> m in bi && bi[m] == i
    ensures forall m :: m in bi ==> m <= -1 && (m >= -sh || m == -1)
  {
    bi := bi0;
    var iter := 0;
    var k := 0;
    while k < sh
      invariant 0 <= k <= sh && iter == -k
      invariant forall m :: -k <= m < 0 ==> m in bi && bi[m] == i
      invariant forall m :: m in bi ==> m <= -1 && (m >= -k || m == -1)
    {
      BlockGrows(bi, k, i);
      iter := iter - 1;
      bi := bi[iter := i];
      k := k + 1;
    }
  }

  /**
   * The rest of a split entry opens the window: its bytes take positions
   * 0, 1, ... and continue the run of offset i begun below 0
   * (model/model.py:98-102).
   */
  method ShowSplitEntry(base: seq<Byte>, ext: Overlay, bi0: map<int, int>, rest: seq<Byte>, i: int, sh: int)
      returns (shown: seq<Byte>, bi: map<int, int>)
    requires sh >= 1 && i in ext && sh <= |ext[i]| && rest == ext[i][sh..]
    requires forall m :: -sh <= m < 0 ==> m in bi0 && bi0[m] == i
    requires forall m :: m in bi0 ==> m <= -1 && (m >= -sh || m == -1)
    ensures Shows(base, ext, shown, bi) && KeysBelow(bi, |shown|) && shown == rest
    ensures forall m :: m in bi ==> bi[m] == i
    ensures -1 in bi
  {
    bi := bi0;
    shown := [];
    RunOfBlock(bi, -sh, 0, i);
    var iter := 0;
    var k := 0;
    while k < |rest|
      invariant 0 <= k <= |rest| && iter == k && shown == rest[..k]
      invariant Shows(base, ext, shown, bi) && KeysBelow(bi, k)
      invariant Edits.Run(bi, k - 1, i) == sh + k
      invariant forall m :: m in bi ==> bi[m] == i
      invariant -1 in bi
    {
      ShowsExtend(base, ext, shown, bi, rest[k], i);
      Edits.RunAgree(bi, bi[iter := i], iter - 1, i);
      bi := bi[iter := i];
      iter := iter + 1;
      shown := shown + [rest[k]];
      k := k + 1;
    }
  }

  /**
   * The second half of update_data (model/model.py:107-124): from base
   * offset start on, appends each offset's entry (nothing for a deleted
   * byte) or its base byte, until the window holds 30 rows or the file ends.
   * next is the base offset the filling stopped at: every shown byte comes
   * from before it, and it stopped either because the window was full or
   * because next is past the end of the file.
   */
  method FillWindow(base: seq<Byte>, ext: Overlay, start: int, shown0: seq<Byte>, bi0: map<int, int>)
      returns (shown: seq<Byte>, bi: map<int, int>, next: int)
    requires start >= 0
    requires Shows(base, ext, shown0, bi0) && KeysBelow(bi0, |shown0|) && ValuesBelow(bi0, start) && Monotone(bi0)
    ensures Shows(base, ext, shown, bi) && KeysBelow(bi, |shown|) && Monotone(bi)
    ensures shown0 <= shown
    ensures start <= next && (next == start || next <= |base|) && ValuesBelow(bi, next)
    ensures |shown| >= WindowSize || next >= |base|
    ensures start <= |base| ==> next <= |base| && shown == shown0 + Document.DocRange(base, ext, start, next)
    ensures |base| < start ==> shown == shown0
    ensures ext == map[] && shown0 == [] ==>
      && |shown| == (if |base| <= start then 0 else if |base| - start < WindowSize then |base| - start else WindowSize)
      && forall j :: 0 <= j < |shown| ==> j in bi && bi[j] == start + j
  {
    shown := shown0;
    bi := bi0;
    var pos := start;
    var iter := |shown0|;
    while |shown| < WindowSize
      invariant iter == |shown| && pos >= start && shown0 <= shown && (pos == start || pos <= |base|)
      invariant Shows(base, ext, shown, bi) && KeysBelow(bi, |shown|) && ValuesBelow(bi, pos) && Monotone(bi)
      invariant start <= |base| ==> pos <= |base| && shown == shown0 + Document.DocRange(base, ext, start, pos)
      invariant |base| < start ==> shown == shown0
      invariant ext == map[] && shown0 == [] ==>
        && pos == start + |shown| && |shown| <= WindowSize && (|shown| == 0 || pos <= |base|)
        && forall j :: 0 <= j < |shown| ==> j in bi && bi[j] == start + j
      decreases |base| - pos
    {
      var p := pos;
      if p >= |base| {
        break;
      }
      pos := pos + 1;
      ghost var before, bi1 := shown, bi;
      shown, bi := ShowOffset(base, ext, shown, bi, p);
      FillTurn(base, ext, start, p, shown0, before, shown);
      if ext == map[] && shown0 == [] {
        PlainTurn(bi1, bi, |before|, start);
      }
      iter := |shown|;
    }
    next := pos;
  }

  /** The bytes of an entry from shift sh > 0 on are one of its tails. */
  lemma SplitTail(ext: Overlay, a: int, sh: int, t: seq<Byte>)
    requires a in ext && 0 < sh <= |ext[a]| && t == ext[a][sh..]
    ensures EntryTail(ext, a, t)
  {
    assert ext[a][sh..] == ext[a][|ext[a]| - |t|..];
  }

  /** What the fill loop has shown is the document from start, one base offset further each turn. */
  lemma FillTurn(base: seq<Byte>, ext: Overlay, start: int, p: int, shown0: seq<Byte>, before: seq<Byte>, after: seq<Byte>)
    requires 0 <= start <= p < |base|
    requires before == shown0 + Document.DocRange(base, ext, start, p)
    requires after == before + Document.Cell(base, ext, p)
    ensures after == shown0 + Document.DocRange(base, ext, start, p + 1)
  {
    Document.DocStep(base, ext, start, p);
    Document.Regroup(shown0, Document.DocRange(base, ext, start, p), Document.Cell(base, ext, p));
  }

  /** Without edits, window position n is indexed to base offset start + n like the ones before it. */
  lemma PlainTurn(bi0: map<int, int>, bi: map<int, int>, n: int, start: int)
    requires n >= 0 && bi == bi0[n := start + n]
    requires forall j :: 0 <= j < n ==> j in bi0 && bi0[j] == start + j
    ensures forall j :: 0 <= j < n + 1 ==> j in bi && bi[j] == start + j
  {
  }

  /** One turn of the fill loop (model/model.py:112-124): base offset p shows its entry, or its base byte indexed to p. */
  method ShowOffset(base: seq<Byte>, ext: Overlay, shown0: seq<Byte>, bi0: map<int, int>, p: int)
      returns (shown: seq<Byte>, bi: map<int, int>)
    requires 0 <= p < |base|
    requires Shows(base, ext, shown0, bi0) && KeysBelow(bi0, |shown0|) && ValuesBelow(bi0, p) && Monotone(bi0)
    ensures Shows(base, ext, shown, bi) && KeysBelow(bi, |shown|) && ValuesBelow(bi, p + 1) && Monotone(bi)
    ensures shown == shown0 + Document.Cell(base, ext, p)
    ensures p !in ext ==> bi == bi0[|shown0| := p]
  {
    if p in ext {
      shown, bi := ShowEntry(base, ext, shown0, bi0, p);
    } else {
      ShowsExtend(base, ext, shown0, bi0, base[p], p);
      bi := bi0[|shown0| := p];
      shown := shown0 + [base[p]];
    }
  }

  /** The bytes of the entry at base offset p join the window, each indexed to p (model/model.py:116-120). */
  method ShowEntry(base: seq<Byte>, ext: Overlay, shown0: seq<Byte>, bi0: map<int, int>, p: int)
      returns (shown: seq<Byte>, bi: map<int, int>)
    requires p in ext
    requires Shows(base, ext, shown0, bi0) && KeysBelow(bi0, |shown0|) && ValuesBelow(bi0, p) && Monotone(bi0)
    ensures Shows(base, ext, shown, bi) && KeysBelow(bi, |shown|) && Monotone(bi)
    ensures shown == shown0 + ext[p]
    ensures forall m :: |shown0| <= m < |shown| ==> m in bi && bi[m] == p
    ensures forall m :: m in bi ==> bi[m] <= p
  {
    shown := shown0;
    bi := bi0;
    var e := ext[p];
    var iter := |shown|;
    var k := 0;
    while k < |e|
      invariant 0 <= k <= |e| && iter == |shown| == |shown0| + k && shown == shown0 + e[..k]
      invariant forall m :: |shown0| <= m < |shown| ==> m in bi && bi[m] == p
      invariant Shows(base, ext, shown, bi) && KeysBelow(bi, |shown|) && Monotone(bi)
      invariant forall m :: m in bi ==> bi[m] <= p
      invariant Edits.Run(bi, |shown| - 1, p) == k
    {
      ShowsExtend(base, ext, shown, bi, e[k], p);
      Edits.RunAgree(bi, bi[iter := p], iter - 1, p);
      PrefixGrows(shown0, e, k);
      bi := bi[iter := p];
      iter := iter + 1;
      shown := shown + [e[k]];
      k := k + 1;
    }
    assert e[..|e|] == e;
  }

  /** Appending the next byte of e to a copy of its first k bytes copies k + 1 of them. */
  lemma PrefixGrows(a: seq<Byte>, e: seq<Byte>, k: int)
    requires 0 <= k < |e|
    ensures a + e[..k] + [e[k]] == a + e[..k + 1]
  {
    assert e[..k + 1] == e[..k] + [e[k]];
  }

  /**
   * What update_data shows is one contiguous slice of the edited document:
   * the tail of the entry before base offset first, then the document from
   * first to next, starting d bytes into the document.
   */
  /** Without edits, a window filled from start shows the file's bytes from start on. */
  lemma PlainWindow(base: seq<Byte>, shown: seq<Byte>, bi: map<int, int>, start: int)
    requires start >= 0 && Shows(base, map[], shown, bi)
    requires |shown| == (if |base| <= start then 0 else if |base| - start < WindowSize then |base| - start else WindowSize)
    requires forall j :: 0 <= j < |shown| ==> j in bi && bi[j] == start + j
    ensures shown == Document.Read(base, start, start + WindowSize)
  {
    forall j | 0 <= j < |shown|
      ensures shown[j] == Document.Read(base, start, start + WindowSize)[j]
    {
      assert ShowsAt(base, map[], shown, bi, j);
    }
  }

  /** w occurs in doc starting at offset d. */
  predicate SliceAt(doc: seq<Byte>, w: seq<Byte>, d: int)
  {
    0 <= d && d + |w| <= |doc| && w == doc[d..d + |w|]
  }

  lemma WindowIsSlice(base: seq<Byte>, ext: Overlay, first: int, lead: seq<Byte>, next: int)
    requires Document.AnchorsInBase(base, ext) && 0 <= first <= next <= |base|
    requires EntryTail(ext, first - 1, lead)
    ensures SliceAt(Document.LogicalDocument(base, ext),
                    lead + Document.DocRange(base, ext, first, next),
                    |Document.DocRange(base, ext, 0, first)| - |lead|)
  {
    var a := Document.DocRange(base, ext, 0, first);
    var b := Document.DocRange(base, ext, first, next);
    var c := Document.DocRange(base, ext, next, |base|);
    DocThreeParts(base, ext, first, next);
    LeadEndsPrefix(base, ext, first, lead);
    SliceAfterSplit(Document.LogicalDocument(base, ext), a, lead, b, c);
  }

  /** The tail of the entry before first is how the document up to first ends. */
  /** The document cut at first and at next. */
  lemma DocThreeParts(base: seq<Byte>, ext: Overlay, first: int, next: int)
    requires 0 <= first <= next <= |base|
    ensures Document.LogicalDocument(base, ext)
            == Document.DocRange(base, ext, 0, first)
               + (Document.DocRange(base, ext, first, next) + Document.DocRange(base, ext, next, |base|))
  {
    Document.DocSplit(base, ext, 0, first, |base|);
    Document.DocSplit(base, ext, first, next, |base|);
  }

  lemma LeadEndsPrefix(base: seq<Byte>, ext: Overlay, first: int, lead: seq<Byte>)
    requires Document.AnchorsInBase(base, ext) && 0 <= first <= |base|
    requires EntryTail(ext, first - 1, lead)
    ensures var a := Document.DocRange(base, ext, 0, first);
            |lead| <= |a| && a[|a| - |lead|..] == lead
  {
    if lead != [] {
      Document.DocStep(base, ext, 0, first - 1);
      SuffixOfTail(Document.DocRange(base, ext, 0, first - 1), Document.Cell(base, ext, first - 1), lead);
    }
  }

  /** A tail of e is a tail of anything ending in e. */
  lemma SuffixOfTail(x: seq<Byte>, e: seq<Byte>, t: seq<Byte>)
    requires |t| <= |e| && t == e[|e| - |t|..]
    ensures (x + e)[|x + e| - |t|..] == t
  {
  }

  /** A piece that ends a, followed by b, is the slice of a + (b + c) where it starts. */
  lemma SliceAfterSplit(doc: seq<Byte>, a: seq<Byte>, t: seq<Byte>, b: seq<Byte>, c: seq<Byte>)
    requires doc == a + (b + c)
    requires |t| <= |a| && a[|a| - |t|..] == t
    ensures SliceAt(doc, t + b, |a| - |t|)
  {
    var d := |a| - |t|;
    assert doc == a[..d] + (t + b) + c;
  }

  /** One turn of the write loop: the first anchor left moves from what is left to what is written. */
  lemma WriteTurn(base: seq<Byte>, ext: Overlay, todo: seq<int>, cur: int, done: seq<Byte>, done': seq<Byte>, cur': int)
    requires todo != []
    requires forall i :: 0 <= i < |todo| ==> todo[i] in ext
    requires var pos := todo[0];
             && done' == (if cur < pos then done + Document.Read(base, cur, pos) + ext[pos] else done + ext[pos])
             && cur' == (if cur < pos then pos else cur) + |ext[pos]|
    ensures forall i :: 0 <= i < |todo[1..]| ==> todo[1..][i] in ext
    ensures done + Document.WriteFrom(base, ext, todo, cur) == done' + Document.WriteFrom(base, ext, todo[1..], cur')
  {
    var pos := todo[0];
    var chunk := if cur < pos then Document.Read(base, cur, pos) else [];
    var rest := Document.WriteFrom(base, ext, todo[1..], cur');
    assert Document.WriteFrom(base, ext, todo, cur) == chunk + ext[pos] + rest;
    AppendPieces(done, chunk, ext[pos], rest);
  }

  /** Appending the pieces one by one is appending their concatenation; an empty chunk adds nothing. */
  lemma AppendPieces(done: seq<Byte>, chunk: seq<Byte>, entry: seq<Byte>, rest: seq<Byte>)
    ensures done + (chunk + entry + rest) == done + chunk + entry + rest
    ensures chunk == [] ==> done + (chunk + entry + rest) == done + entry + rest
  {
    if chunk == [] {
      assert chunk + entry == entry;
    }
  }

  /**
   * The loop of write_data (model/model.py:53-68) over the anchors in the
   * order given: base bytes up to each anchor, its entry, the read cursor
   * moved on by the entry's length, and the rest of the file at the end.
   */
  method WriteAnchors(base: seq<Byte>, ext: Overlay, keys: seq<int>) returns (out: seq<Byte>)
    requires forall i :: 0 <= i < |keys| ==> keys[i] in ext
    ensures out == Document.WriteFrom(base, ext, keys, 0)
  {
    var cur := 0;
    out := [];
    var todo := keys;
    while todo != []
      invariant forall i :: 0 <= i < |todo| ==> todo[i] in ext
      invariant out + Document.WriteFrom(base, ext, todo, cur) == Document.WriteFrom(base, ext, keys, 0)
      decreases |todo|
    {
      var pos := todo[0];
      ghost var (out0, cur0) := (out, cur);
      if cur < pos {
        var chunkSize := pos - cur;
        out := out + Document.Read(base, cur, cur + chunkSize);
        cur := cur + chunkSize;
      }
      out := out + ext[pos];
      cur := cur + |ext[pos]|;
      WriteTurn(base, ext, todo, cur0, out0, out, cur);
      todo := todo[1..];
    }
    out := out + Document.Read(base, cur, |base|);
  }

  // -----------------------------------------------------------------------
  // The buffer
  // -----------------------------------------------------------------------

  /** Two cursor lists that agree from i on agree at i and from i + 1 on. */
  lemma SuffixStep(a: seq<int>, b: seq<int>, i: nat)
    requires i < |a| == |b| && a[i..] == b[i..]
    ensures a[i] == b[i] && a[i + 1..] == b[i + 1..]
  {
    assert a[i] == a[i..][0];
    assert a[i + 1..] == a[i..][1..];
    assert b[i + 1..] == b[i..][1..];
  }

  /** Replacing entry i leaves the entries after it alone. */
  lemma UpdateKeepsSuffix(a: seq<int>, i: nat, x: int)
    requires i < |a|
    ensures a[i := x][i + 1..] == a[i + 1..]
  {
  }

  /** Records logged in two turns sit on the undo stack as if logged in one. */
  lemma AppendInTurn(undo: seq<LogRecord>, first: seq<LogRecord>, rest: seq<LogRecord>)
    ensures undo + first + rest == undo + (first + rest)
  {
  }

  /**
   * The shifting loops of handle_multicursor (model/model.py:429-432,
   * 443-446): every cursor after c moves by d.
   */
  method ShiftCursors(cs: seq<int>, c: int, d: int) returns (r: seq<int>)
    ensures |r| == |cs|
    ensures forall i :: 0 <= i < |cs| ==> r[i] == if cs[i] > c then cs[i] + d else cs[i]
    ensures r == Edits.ShiftAfter(cs, c, d)
  {
    r := cs;
    var i := 0;
    while i < |r|
      invariant 0 <= i <= |r| == |cs|
      invariant forall m :: 0 <= m < i ==> r[m] == if cs[m] > c then cs[m] + d else cs[m]
      invariant forall m :: i <= m < |r| ==> r[m] == cs[m]
    {
      if r[i] > c {
        r := r[i := r[i] + d];
      }
      i := i + 1;
    }
  }

  class Buffer {
    /** The file being edited, never written to. */
    const base: seq<Byte>
    /** The undo log; its `extended` is the overlay of pending edits the buffer edits in place. */
    const logger: Logger
    var tensOffset: int
    var shown: seq<Byte>
    var byteIndex: map<int, int>
    var cursors: seq<int>
    var cursorIsBusy: bool

    /** What the edits read of the buffer and never change. */
    function View(): Edits.View
      reads this
    {
      Edits.View(base, shown, byteIndex)
    }

    /** __init__ (model/model.py:16-32): no edits, the window at the top of the file, no secondary cursors. */
    constructor (file: seq<Byte>)
      ensures base == file && fresh(logger)
      ensures logger.extended == map[] && logger.undoStack == [] && logger.redoStack == []
      ensures tensOffset == 0 && shown == Document.Read(file, 0, WindowSize)
      ensures forall j :: 0 <= j < |shown| ==> j in byteIndex && byteIndex[j] == j
      ensures cursors == [] && !cursorIsBusy
    {
      base := file;
      logger := new Logger(map[]);
      new;
      ghost var first, lead, next := UpdateData(0);
      cursors := [];
      cursorIsBusy := false;
    }

    /**
     * update_data (model/model.py:70-124): rebuilds the window starting at
     * row s of the edited document. Every window position shows the byte its
     * anchor contributes at the position's shift, and positions follow file
     * order; without edits the window is the file's bytes from 16 * s on.
     * The window is lead, the tail of the entry just before base offset
     * first that reaches into it, followed by the document from first up to
     * next, where the filling stopped once the window held 30 rows or next
     * was past the end of the file; WindowIsSlice shows that this is a
     * slice of the edited document.
     */
    method UpdateData(s: int) returns (ghost first: int, ghost lead: seq<Byte>, ghost next: int)
      requires s >= 0 && AnchorsNonNegative(logger.extended)
      modifies this
      ensures tensOffset == s
      ensures Shows(base, logger.extended, shown, byteIndex)
      ensures KeysBelow(byteIndex, |shown|) && Monotone(byteIndex)
      ensures ValuesBelow(byteIndex, next) && (|shown| >= WindowSize || next >= |base|)
      ensures 0 <= first <= next && EntryTail(logger.extended, first - 1, lead)
      ensures first <= |base| ==> next <= |base| && shown == lead + Document.DocRange(base, logger.extended, first, next)
      ensures |base| < first ==> shown == lead
      ensures logger.extended == map[] ==>
        && shown == Document.Read(base, s * LenAsciiChar, s * LenAsciiChar + WindowSize)
        && forall j :: 0 <= j < |shown| ==> j in byteIndex && byteIndex[j] == s * LenAsciiChar + j
      ensures cursors == old(cursors) && cursorIsBusy == old(cursorIsBusy)
    {
      tensOffset := s;
      var start, shown0, bi := LocateWindow(base, logger.extended, s);
      if start != 0 {
        // file.seek(start); file.tell() - 1 is the anchor before the window
        if -1 in bi {
          assert bi[-1 := start - 1] == bi;
        }
        bi := bi[-1 := start - 1];
      }
      shown, byteIndex, next := FillWindow(base, logger.extended, start, shown0, bi);
      first, lead := start, shown0;
      if logger.extended == map[] {
        PlainWindow(base, shown, byteIndex, start);
      }
    }

    /** get_size (model/model.py:41-44): the file size plus what each entry adds; the length of the edited document. */
    method GetSize() returns (res: int)
      ensures res == |base| + Extra(logger.extended)
      ensures Document.AnchorsInBase(base, logger.extended) ==>
        res == |Document.LogicalDocument(base, logger.extended)|
    {
      res := |base|;
      var rest := logger.extended;
      while rest != map[]
        invariant res + Extra(rest) == |base| + Extra(logger.extended)
        decreases |rest|
      {
        HasKey(rest);
        var k :| k in rest;
        ExtraRemove(rest, k);
        RemoveKeyCard(rest, k);
        res := res + |rest[k]| - 1;
        rest := rest - {k};
      }
      if Document.AnchorsInBase(base, logger.extended) {
        Document.DocumentSize(base, logger.extended);
      }
    }

    /**
     * get_position (model/model.py:137-146): the offset in the edited
     * document of anchor `index`, plus `shift` bytes into its entry.
     */
    method GetPosition(index: int, shift: int) returns (pos: int)
      ensures pos == LogicalPrefix(logger.extended, index) + (if shift > 0 then shift else 0)
      ensures index >= 0 ==> pos == index + Extra(Below(logger.extended, index)) + (if shift > 0 then shift else 0)
      ensures 0 <= index <= |base| ==>
        pos == |Document.DocRange(base, logger.extended, 0, index)| + (if shift > 0 then shift else 0)
    {
      var ext := logger.extended;
      pos := 0;
      var i := 0;
      while i < index
        invariant 0 <= i && (index >= 0 ==> i <= index) && (index < 0 ==> i == 0)
        invariant pos == LogicalPrefix(ext, i)
      {
        if i in ext {
          var k := 0;
          while k < |ext[i]|
            invariant 0 <= k <= |ext[i]| && pos == LogicalPrefix(ext, i) + k
          {
            pos := pos + 1;
            k := k + 1;
          }
        } else {
          pos := pos + 1;
        }
        i := i + 1;
      }
      if index < 0 {
        assert LogicalPrefix(ext, index) == 0 == LogicalPrefix(ext, 0);
      }
      var j := 0;
      while j < shift
        invariant 0 <= j && (shift >= 0 ==> j <= shift) && (shift < 0 ==> j == 0)
        invariant pos == LogicalPrefix(ext, index) + j
      {
        pos := pos + 1;
        j := j + 1;
      }
      if index >= 0 {
        LogicalPrefixIsExtra(ext, index);
      }
      if 0 <= index <= |base| {
        Document.DocPrefixLength(base, ext, index);
      }
    }

    /**
     * write_data (model/model.py:53-68): the bytes written, as the source
     * writes them; SaveAsWritten is the save function and Document proves
     * where it departs from the edited document.
     */
    method WriteData() returns (out: seq<Byte>)
      ensures out == Document.SaveAsWritten(base, logger.extended)
      ensures logger.extended == map[] ==> out == base
    {
      var ext := logger.extended;
      var keys := SortedSeq(ext.Keys);
      out := WriteAnchors(base, ext, keys);
      if ext == map[] {
        Document.SaveNoEdits(base);
      }
    }
  
    /**
     * The shift loop of add_byte and delete_byte (model/model.py:195-201,
     * 273-279): how many positions directly before i belong to anchor a.
     */
    method ShiftOf(i: int, a: int) returns (sh: nat)
      ensures sh == Edits.Run(byteIndex, i - 1, a)
    {
      sh := 0;
      while i - sh - 1 in byteIndex && byteIndex[i - sh - 1] == a
        invariant Edits.Run(byteIndex, i - 1, a) == sh + Edits.Run(byteIndex, i - sh - 1, a)
        decreases Edits.Run(byteIndex, i - sh - 1, a)
      {
        sh := sh + 1;
      }
    }

    /**
     * add_byte (model/model.py:191-234): edits the overlay in place as
     * Edits.AddByteStep describes and logs the record it builds.
     */
    method AddByte(index: int, b: Byte, isInsert: bool)
      requires Edits.AddByteOk(View(), logger.extended, index, isInsert)
      modifies logger
      ensures var st := Edits.AddByteStep(View(), old(logger.extended), index, b, isInsert);
              && logger.extended == st.ext
              && logger.undoStack == old(logger.undoStack) + [st.record]
              && logger.redoStack == []
    {
      var updated, rec := AddedEntry(index, b, isInsert);
      logger.extended := updated;
      logger.Add(rec);
    }

    /** The entry add_byte writes and the record it logs (model/model.py:191-232), computed without changing anything. */
    method AddedEntry(index: int, b: Byte, isInsert: bool) returns (updated: Overlay, rec: LogRecord)
      requires Edits.AddByteOk(View(), logger.extended, index, isInsert)
      ensures Edits.Step(updated, rec) == Edits.AddByteStep(View(), logger.extended, index, b, isInsert)
    {
      ghost var st := Edits.AddByteStep(View(), logger.extended, index, b, isInsert);
      var i := if isInsert then index else index - 1;
      var ext := logger.extended;
      if i in byteIndex {
        var a := byteIndex[i];
        if a in ext {
          var sh := ShiftOf(i, a);
          rec := LogRecord(a, Some(ext[a]), [b], sh, isInsert);
          if isInsert {
            updated := ext[a := Assign(ext[a], sh, b)];
          } else {
            updated := ext[a := Insert(ext[a], sh + 1, b)];
          }
          assert Edits.Step(updated, rec) == st;
        } else {
          var e: seq<Byte> := [];
          if isInsert {
            rec := LogRecord(a, None, [b], 0, isInsert);
          } else if i != -1 {
            e := PySlice(shown, i, i + 1);
            rec := LogRecord(a, None, [b], 1, isInsert);
          } else {
            // file.seek(a); file.read(1)
            e := Document.Read(base, a, a + 1);
            rec := LogRecord(a, None, [b], 1, isInsert);
          }
          assert isInsert ==> e + [b] == [b];
          updated := ext[a := e + [b]];
          assert Edits.Step(updated, rec) == st;
        }
      } else {
        // the KeyError path: the edit goes to the front of anchor 0
        if 0 !in ext {
          ext := ext[0 := PySlice(shown, 0, 1)];
        }
        rec := LogRecord(0, Some(ext[0]), [b], 1, isInsert);
        updated := ext[0 := Insert(ext[0], 0, b)];
        assert Edits.Step(updated, rec) == st;
      }
    }

    /**
     * delete_byte (model/model.py:271-290): edits the overlay in place as
     * Edits.DeleteStep describes and logs the record it builds.
     */
    method DeleteByte(index: int)
      requires Edits.DeleteOk(View(), index)
      modifies logger
      ensures var st := Edits.DeleteStep(View(), old(logger.extended), index);
              && logger.extended == st.ext
              && logger.undoStack == old(logger.undoStack) + [st.record]
              && logger.redoStack == []
    {
      var ext := logger.extended;
      var a := byteIndex[index];
      var rec: LogRecord;
      if a in ext {
        var sh := ShiftOf(index, a);
        rec := LogRecord(a, Some(ext[a]), [], sh, true);
        if sh < |ext[a]| {
          logger.extended := ext[a := PopAt(ext[a], sh)];
        }
        // otherwise pop raises IndexError, which is caught
      } else {
        rec := LogRecord(a, None, [], 0, true);
        logger.extended := ext[a := []];
      }
      logger.Add(rec);
    }

    /**
     * update_from_text_position (model/model.py:250-262): the byte under
     * text column p becomes the typed character; returns the new column.
     */
    method UpdateFromTextPosition(p: int, ch: char, isInsert: bool) returns (pos: int)
      requires Edits.TextEditOk(View(), logger.extended, p, ch, isInsert)
      modifies logger
      ensures var e := Edits.TextEdit(View(), old(logger.extended), p, ch, isInsert);
              && logger.extended == e.ext && pos == e.pos
              && logger.undoStack == old(logger.undoStack) + e.log
              && (e.log == [] ==> logger.redoStack == old(logger.redoStack))
              && (e.log != [] ==> logger.redoStack == [])
    {
      pos := p;
      if Edits.IsAlnum(ch) {
        var index := pos - pos / LenAsciiLine;
        WriteTextChar(p, ch, isInsert);
        if pos % LenAsciiLine == 15 {
          pos := pos + 1;
        }
        if index == |shown| {
          pos := pos + 1;
        }
        pos := pos + 1;
      }
    }

    /** The add_byte call update_from_text_position makes for an alphanumeric key (model/model.py:251-256). */
    method WriteTextChar(p: int, ch: char, isInsert: bool)
      requires Edits.IsAlnum(ch) && Edits.TextEditOk(View(), logger.extended, p, ch, isInsert)
      modifies logger
      ensures var e := Edits.TextEdit(View(), old(logger.extended), p, ch, isInsert);
              && logger.extended == e.ext
              && logger.undoStack == old(logger.undoStack) + e.log
              && logger.redoStack == []
    {
      var index := p - p / LenAsciiLine;
      if p != |shown| + p / LenAsciiLine && isInsert {
        AddByte(index, ch as int, true);
      } else {
        AddByte(index, ch as int, false);
      }
    }

    /**
     * backspace_event_from_text (model/model.py:302-308): deletes the byte
     * before text column p; returns the new column.
     */
    method BackspaceFromText(p: int) returns (pos: int)
      requires Edits.TextBackspaceOk(View(), p)
      modifies logger
      ensures var e := Edits.TextBackspace(View(), old(logger.extended), p);
              && logger.extended == e.ext && pos == e.pos
              && logger.undoStack == old(logger.undoStack) + e.log
              && logger.redoStack == []
    {
      var index := p - p / LenAsciiLine - 1;
      DeleteByte(index);
      pos := p - 1;
      if pos % LenAsciiLine == LenAsciiChar {
        pos := pos - 1;
      }
    }
  
    /**
     * update_from_hex_position (model/model.py:162-178): a hex digit typed
     * at hex column p edits the byte under it (the high nibble at a byte
     * boundary, the low nibble elsewhere), then the same key is replayed at
     * every secondary cursor unless a replay is already running.
     */
    method UpdateFromHexPosition(p: int, ch: string, isInsert: bool) returns (pos: int)
      requires Edits.HexInputOk(View(), logger.extended, cursors, cursorIsBusy, p, ch, isInsert)
      modifies this, logger
      decreases if cursorIsBusy then 0 else 1, 1
      ensures shown == old(shown) && byteIndex == old(byteIndex) && tensOffset == old(tensOffset)
      ensures cursorIsBusy == old(cursorIsBusy)
      ensures var r := Edits.HexInput(old(View()), old(logger.extended), old(cursors), old(cursorIsBusy), p, ch, isInsert);
              && logger.extended == r.ext && pos == r.pos && cursors == r.cursors
              && logger.undoStack == old(logger.undoStack) + r.log
              && (r.log == [] ==> logger.redoStack == old(logger.redoStack))
              && (r.log != [] ==> logger.redoStack == [])
    {
      pos := p;
      if Edits.IsHexChar(ch) {
        ghost var v := View();
        ghost var c0 := cursors;
        ghost var busy := cursorIsBusy;
        ghost var e := Edits.HexEdit(v, logger.extended, p, ch, isInsert);
        pos := WriteHexDigit(p, ch, isInsert);
        pos := HandleMulticursor(pos, ch, isInsert);
        if !busy {
          AppendInTurn(old(logger.undoStack), e.log, Edits.Multi(v, e.ext, c0, e.pos, ch, isInsert).log);
        }
      }
    }

    /** The edit update_from_hex_position makes at its own cursor (model/model.py:162-176). */
    method WriteHexDigit(p: int, ch: string, isInsert: bool) returns (pos: int)
      requires Edits.IsHexChar(ch) && Edits.HexEditOk(View(), logger.extended, p, ch, isInsert)
      modifies logger
      ensures var e := Edits.HexEdit(View(), old(logger.extended), p, ch, isInsert);
              && logger.extended == e.ext && pos == e.pos
              && logger.undoStack == old(logger.undoStack) + e.log
              && logger.redoStack == []
    {
      ghost var v := View();
      var index := p / LenByte;
      var d := Render.DigitValue(ch[0]);
      var b: Byte;
      var overwrite: bool;
      if p % LenByte == 0 {
        if p != |shown| * LenByte && isInsert {
          // the typed digit, then the low digit of the byte under the cursor
          var under := PySlice(shown, index, index + 1);
          b, overwrite := d * 16 + under[0] % 16, true;
        } else {
          b, overwrite := d * 16, false;
        }
        pos := p + 1;
      } else {
        // the high digit of the byte under the cursor, then the typed digit
        var under := PySlice(shown, index, index + 1);
        b, overwrite := under[0] / 16 * 16 + d, true;
        pos := p + 2;
      }
      assert b == Edits.HexByte(v, p, ch, isInsert) && overwrite == Edits.HexOverwrites(v, p, isInsert);
      AddByte(index, b, overwrite);
    }

    /**
     * backspace_event_from_hex (model/model.py:320-330): at a nonzero byte
     * boundary deletes the byte before the cursor and moves back one byte;
     * then replays the backspace at every secondary cursor.
     */
    method BackspaceFromHex(p: int) returns (pos: int)
      requires Edits.HexBackOk(View(), logger.extended, cursors, cursorIsBusy, p)
      modifies this, logger
      decreases if cursorIsBusy then 0 else 1, 1
      ensures shown == old(shown) && byteIndex == old(byteIndex) && tensOffset == old(tensOffset)
      ensures cursorIsBusy == old(cursorIsBusy)
      ensures var r := Edits.HexBack(old(View()), old(logger.extended), old(cursors), old(cursorIsBusy), p);
              && logger.extended == r.ext && pos == r.pos && cursors == r.cursors
              && logger.undoStack == old(logger.undoStack) + r.log
              && (r.log == [] ==> logger.redoStack == old(logger.redoStack))
              && (r.log != [] ==> logger.redoStack == [])
    {
      ghost var v := View();
      ghost var c0 := cursors;
      ghost var busy := cursorIsBusy;
      ghost var e := Edits.HexBackspace(v, logger.extended, p);
      pos := EraseBeforeHex(p);
      assert logger.extended == e.ext && pos == e.pos;
      pos := HandleMulticursor(pos, "", p % LenByte == 0 && p != 0);
      if !busy {
        AppendInTurn(old(logger.undoStack), e.log, Edits.Multi(v, e.ext, c0, e.pos, "", p % LenByte == 0 && p != 0).log);
      }
    }

    /** The deletion backspace_event_from_hex makes at its own cursor (model/model.py:320-323). */
    method EraseBeforeHex(p: int) returns (pos: int)
      requires Edits.HexBackspaceOk(View(), p)
      modifies logger
      ensures var e := Edits.HexBackspace(View(), old(logger.extended), p);
              && logger.extended == e.ext && pos == e.pos
              && logger.undoStack == old(logger.undoStack) + e.log
              && (e.log == [] ==> logger.redoStack == old(logger.redoStack))
              && (e.log != [] ==> logger.redoStack == [])
    {
      pos := p;
      if p % LenByte == 0 && p != 0 {
        var index := p / LenByte - 1;
        DeleteByte(index);
        pos := p - LenByte;
      }
    }

    /**
     * handle_multicursor (model/model.py:425-460): unless a replay is
     * already running, deduplicates and sorts the secondary cursors,
     * shifts them for the byte just inserted or deleted, and replays the
     * key (a hex digit, or "" for backspace) at each of them, adjusting the
     * primary position as Edits.Multi describes.
     */
    method HandleMulticursor(p: int, ch: string, flag: bool) returns (pos: int)
      requires !cursorIsBusy ==> Edits.MultiOk(View(), logger.extended, cursors, p, ch, flag)
      modifies this, logger
      decreases if cursorIsBusy then 0 else 1, 0
      ensures shown == old(shown) && byteIndex == old(byteIndex) && tensOffset == old(tensOffset)
      ensures cursorIsBusy == old(cursorIsBusy)
      ensures old(cursorIsBusy) ==>
        && pos == p && cursors == old(cursors) && logger.extended == old(logger.extended)
        && logger.undoStack == old(logger.undoStack) && logger.redoStack == old(logger.redoStack)
      ensures !old(cursorIsBusy) ==>
        var r := Edits.Multi(old(View()), old(logger.extended), old(cursors), p, ch, flag);
        && logger.extended == r.ext && pos == r.pos && cursors == r.cursors
        && logger.undoStack == old(logger.undoStack) + r.log
        && (r.log == [] ==> logger.redoStack == old(logger.redoStack))
        && (r.log != [] ==> logger.redoStack == [])
    {
      pos := p;
      if cursorIsBusy {
        return;
      }
      ghost var v := View();
      cursorIsBusy := true;
      assert View() == v;
      var cs := Edits.Distinct(cursors);
      if ch == "" {
        if pos % LenByte == 0 && flag {
          cs := ShiftCursors(cs, pos + LenByte, -LenByte);
        }
      } else if !flag && (pos - 1) % LenByte == 0 {
        cs := ShiftCursors(cs, pos - LenByte, LenByte);
      }
      assert cs == Edits.FanCursors(old(cursors), p, ch, flag);
      cursors := cs;
      assert View() == v;
      if ch == "" {
        assert Edits.BackFanOk(v, logger.extended, cs, |cs|);
        pos := ReplayBackspace(pos);
      } else {
        assert Edits.InputFanOk(v, logger.extended, cs, 0, ch, flag);
        pos := ReplayInput(pos, ch, flag);
      }
      cursorIsBusy := false;
    }

    /**
     * The backspace loop of handle_multicursor (model/model.py:433-440):
     * cursors from last to first; each one at a byte boundary takes a
     * backspace and is replaced by where it lands.
     */
    method ReplayBackspace(p: int) returns (pos: int)
      requires cursorIsBusy
      requires Edits.BackFanOk(View(), logger.extended, cursors, |cursors|)
      modifies this, logger
      decreases if cursorIsBusy then 0 else 1, 3
      ensures shown == old(shown) && byteIndex == old(byteIndex) && tensOffset == old(tensOffset)
      ensures cursorIsBusy
      ensures var r := Edits.BackFan(old(View()), old(cursors), Edits.Fan(old(logger.extended), [], old(cursors), p), |old(cursors)|);
              && logger.extended == r.ext && pos == r.pos && cursors == r.cursors
              && logger.undoStack == old(logger.undoStack) + r.log
              && (r.log == [] ==> logger.redoStack == old(logger.redoStack))
              && (r.log != [] ==> logger.redoStack == [])
    {
      ghost var v := View();
      ghost var cs := cursors;
      ghost var undo0 := logger.undoStack;
      ghost var redo0 := logger.redoStack;
      ghost var target := Edits.BackFan(v, cs, Edits.Fan(logger.extended, [], cs, p), |cs|);
      ghost var log: seq<LogRecord> := [];
      pos := p;
      var i := |cursors|;
      while i > 0
        invariant 0 <= i <= |cs| == |cursors| && cursors[..i] == cs[..i]
        invariant shown == v.shown && byteIndex == v.index && tensOffset == old(tensOffset) && cursorIsBusy
        invariant logger.undoStack == undo0 + log
        invariant log == [] ==> logger.redoStack == redo0
        invariant log != [] ==> logger.redoStack == []
        invariant Edits.BackFanOk(v, logger.extended, cs, i)
        invariant Edits.BackFan(v, cs, Edits.Fan(logger.extended, log, cursors, pos), i) == target
      {
        i := i - 1;
        assert cursors[i] == cursors[..i + 1][i] == cs[i];
        if cursors[i] % LenByte == 0 {
          ghost var pushed := Edits.HexBackspace(v, logger.extended, cs[i]).log;
          AppendInTurn(undo0, log, pushed);
          assert cursors[..i] == cursors[..i + 1][..i] == cs[..i];
          pos := ReplayBackspaceTurn(v, cs, log, i + 1, pos);
          log := log + pushed;
        }
      }
    }

    /** One turn of the backspace loop, for a cursor on a byte boundary (model/model.py:435-440). */
    method ReplayBackspaceTurn(ghost v: Edits.View, ghost cs: seq<int>, ghost log: seq<LogRecord>, i: nat, pos: int)
      returns (pos': int)
      requires cursorIsBusy && View() == v
      requires 0 < i <= |cs| == |cursors| && cursors[i - 1] == cs[i - 1] && cs[i - 1] % LenByte == 0
      requires Edits.BackFanOk(v, logger.extended, cs, i)
      modifies this, logger
      decreases if cursorIsBusy then 0 else 1, 2
      ensures shown == old(shown) && byteIndex == old(byteIndex) && tensOffset == old(tensOffset)
      ensures cursorIsBusy
      ensures |cursors| == |cs| && cursors[..i - 1] == old(cursors)[..i - 1]
      ensures var e := Edits.HexBackspace(v, old(logger.extended), cs[i - 1]);
              && logger.undoStack == old(logger.undoStack) + e.log
              && (e.log == [] ==> logger.redoStack == old(logger.redoStack))
              && (e.log != [] ==> logger.redoStack == [])
              && Edits.BackFanOk(v, logger.extended, cs, i - 1)
              && Edits.BackFan(v, cs, Edits.Fan(logger.extended, log + e.log, cursors, pos'), i - 1)
                 == Edits.BackFan(v, cs, Edits.Fan(old(logger.extended), log, old(cursors), pos), i)
    {
      ghost var f := Edits.Fan(logger.extended, log, cursors, pos);
      ghost var e := Edits.HexBackspace(v, logger.extended, cs[i - 1]);
      Edits.BackFanStep(v, cs, f, i);
      pos' := pos;
      if pos + LenByte > cursors[i - 1] && cursors[i - 1] != 0 {
        pos' := pos - LenByte;
      }
      assert Edits.HexBackOk(View(), logger.extended, cursors, cursorIsBusy, cursors[i - 1]);
      var c := BackspaceFromHex(cursors[i - 1]);
      cursors := cursors[i - 1 := c];
      assert Edits.Fan(logger.extended, log + e.log, cursors, pos')
        == Edits.Fan(e.ext, f.log + e.log, f.cursors[i - 1 := e.pos], pos');
    }

    /**
     * The input loop of handle_multicursor (model/model.py:447-460): the
     * key is replayed at each cursor in order; in overwrite mode every
     * landing on a byte's second digit shifts the following cursors, and
     * the primary position when it lies behind, one byte further.
     */
    method ReplayInput(p: int, ch: string, flag: bool) returns (pos: int)
      requires cursorIsBusy
      requires Edits.InputFanOk(View(), logger.extended, cursors, 0, ch, flag)
      modifies this, logger
      decreases if cursorIsBusy then 0 else 1, 4
      ensures shown == old(shown) && byteIndex == old(byteIndex) && tensOffset == old(tensOffset)
      ensures cursorIsBusy
      ensures var r := Edits.InputFan(old(View()), old(cursors), Edits.Fan(old(logger.extended), [], old(cursors), p), 0, 0, ch, flag);
              && logger.extended == r.ext && pos == r.pos && cursors == r.cursors
              && logger.undoStack == old(logger.undoStack) + r.log
              && (r.log == [] ==> logger.redoStack == old(logger.redoStack))
              && (r.log != [] ==> logger.redoStack == [])
    {
      ghost var v := View();
      ghost var cs := cursors;
      ghost var undo0 := logger.undoStack;
      ghost var redo0 := logger.redoStack;
      ghost var target := Edits.InputFan(v, cs, Edits.Fan(logger.extended, [], cs, p), 0, 0, ch, flag);
      ghost var log: seq<LogRecord> := [];
      pos := p;
      var offset := 0;
      var i := 0;
      while i < |cursors|
        invariant 0 <= i <= |cs| == |cursors| && cursors[i..] == cs[i..]
        invariant shown == v.shown && byteIndex == v.index && tensOffset == old(tensOffset) && cursorIsBusy
        invariant logger.undoStack == undo0 + log
        invariant log == [] ==> logger.redoStack == redo0
        invariant log != [] ==> logger.redoStack == []
        invariant Edits.InputFanOk(v, logger.extended, cs, i, ch, flag)
        invariant Edits.InputFan(v, cs, Edits.Fan(logger.extended, log, cursors, pos), i, offset, ch, flag) == target
      {
        offset, pos, log := ReplayInputTurn(v, cs, undo0, redo0, log, i, offset, pos, ch, flag);
        i := i + 1;
      }
    }

    /**
     * One turn of the input loop (model/model.py:448-460): the key at
     * cursor i, then the shifts its landing calls for; the replay from
     * cursor i on equals the replay from i + 1 on the state it leaves, and
     * the undo stack gains the edit's record.
     */
    method ReplayInputTurn(ghost v: Edits.View, ghost cs: seq<int>, ghost undo0: seq<LogRecord>, ghost redo0: seq<LogRecord>,
                           ghost log: seq<LogRecord>, i: nat, offset: int, pos: int, ch: string, flag: bool)
      returns (offset': int, pos': int, ghost log': seq<LogRecord>)
      requires cursorIsBusy && View() == v
      requires i < |cs| == |cursors| && cursors[i..] == cs[i..]
      requires logger.undoStack == undo0 + log
      requires log == [] ==> logger.redoStack == redo0
      requires log != [] ==> logger.redoStack == []
      requires Edits.InputFanOk(v, logger.extended, cs, i, ch, flag)
      modifies this, logger
      decreases if cursorIsBusy then 0 else 1, 3
      ensures shown == old(shown) && byteIndex == old(byteIndex) && tensOffset == old(tensOffset)
      ensures cursorIsBusy
      ensures |cursors| == |cs| && cursors[i + 1..] == cs[i + 1..]
      ensures logger.undoStack == undo0 + log'
      ensures log' == [] ==> logger.redoStack == redo0
      ensures log' != [] ==> logger.redoStack == []
      ensures Edits.InputFanOk(v, logger.extended, cs, i + 1, ch, flag)
      ensures Edits.InputFan(v, cs, Edits.Fan(logger.extended, log', cursors, pos'), i + 1, offset', ch, flag)
              == Edits.InputFan(v, cs, Edits.Fan(old(logger.extended), log, old(cursors), pos), i, offset, ch, flag)
    {
      SuffixStep(cursors, cs, i);
      ghost var c0 := cursors;
      ghost var f := Edits.Fan(logger.extended, log, cursors, pos);
      ghost var e := Edits.HexEdit(v, logger.extended, cs[i], ch, flag);
      AppendInTurn(undo0, log, e.log);
      var landed := ReplayKeyAt(i, offset, ch, flag);
      log' := log + e.log;
      offset', pos' := offset, pos;
      if !flag && (landed - 1) % LenByte == 0 {
        offset' := offset + LenByte;
        if landed < pos - LenByte {
          pos' := pos + LenByte;
        }
      }
      Edits.InputFanTurn(v, cs, f, i, offset, ch, flag, landed, Edits.Fan(logger.extended, log', cursors, pos'), offset');
      UpdateKeepsSuffix(c0, i, landed);
    }

    /** One turn of the input loop: `cursors[i] = offset + update_from_hex_position(cursors[i], ...)`. */
    method ReplayKeyAt(i: nat, offset: int, ch: string, flag: bool) returns (landed: int)
      requires cursorIsBusy && i < |cursors|
      requires Edits.HexEditOk(View(), logger.extended, cursors[i], ch, flag)
      modifies this, logger
      decreases if cursorIsBusy then 0 else 1, 2
      ensures shown == old(shown) && byteIndex == old(byteIndex) && tensOffset == old(tensOffset)
      ensures cursorIsBusy
      ensures var e := Edits.HexEdit(old(View()), old(logger.extended), old(cursors[i]), ch, flag);
              && logger.extended == e.ext && landed == offset + e.pos
              && cursors == old(cursors)[i := landed]
              && logger.undoStack == old(logger.undoStack) + e.log
              && (e.log == [] ==> logger.redoStack == old(logger.redoStack))
              && (e.log != [] ==> logger.redoStack == [])
    {
      Edits.HexInputBusy(View(), logger.extended, cursors, cursors[i], ch, flag);
      var c := UpdateFromHexPosition(cursors[i], ch, flag);
      landed := offset + c;
      cursors := cursors[i := landed];
    }

    /**
     * to_hex (model/model.py:359-371): the window as hex pairs, padded with
     * empty cells to whole rows of 16, rows joined by line breaks, trailing
     * whitespace stripped and one space added. Reading the pairs back gives
     * the window.
     */
    method ToHex() returns (text: string)
      ensures text == Render.ToHex(shown)
      ensures Render.ReadHex(text) == shown
      ensures |text| == if |shown| == 0 then 1 else 3 * |shown|
    {
      var hexList := Render.HexList(shown);
      if |hexList| % LenAsciiChar != 0 {
        ghost var cells := hexList;
        var m := LenAsciiChar - |hexList| % LenAsciiChar;
        var i := 0;
        while i < m
          invariant 0 <= i <= m && hexList == cells + Render.Blanks(i)
        {
          assert Render.Blanks(i + 1) == Render.Blanks(i) + [""];
          hexList := hexList + [""];
          i := i + 1;
        }
      }
      assert hexList == Render.PadRow(Render.HexList(shown));
      text := Render.RStrip(Render.Join('\n', Render.Rows(hexList))) + " ";
      assert Render.ReadHex(text) == shown by {
        Render.HexRoundTrip(shown);
      }
      assert |text| == if |shown| == 0 then 1 else 3 * |shown| by {
        Render.ToHexLayout(shown);
      }
    }
  }
}
