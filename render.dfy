/**
 * The three text panes of the editor, computed from the visible window
 * `shown` of the buffer (model/model.py:332-409): the hex grid (3 columns
 * per byte, 16 bytes per row), the text column (16 characters per row,
 * 17 columns with the line break) and the two rulers.
 */
module Render {
  import opened Bytes

  const Digits: string := "0123456789abcdef"

  function HexDigit(d: nat): char
    requires d < 16
  {
    Digits[d]
  }

  /** Value of a lowercase hex digit, the reading side of HexDigit. */
  function DigitValue(c: char): (v: nat)
    ensures v < 16
  {
    if '0' <= c <= '9' then c as int - '0' as int
    else if 'a' <= c <= 'f' then c as int - 'a' as int + 10
    else 0
  }

  lemma DigitRoundTrip(d: nat)
    requires d < 16
    ensures DigitValue(HexDigit(d)) == d
  {
    assert Digits == ['0', '1', '2', '3', '4', '5', '6', '7', '8', '9', 'a', 'b', 'c', 'd', 'e', 'f'];
  }

  // -----------------------------------------------------------------------
  // char_decrypt and to_text
  // -----------------------------------------------------------------------

  /**
   * The text-pane character of one byte (model/model.py:400-409): bytes
   * below decimal 20 and bytes that do not decode as a single UTF-8 byte
   * (128 and above) show as '.'. The result is always one printable-range
   * character, never a line break, so rows stay 16 characters wide.
   */
  function CharDecrypt(b: Byte): (c: char)
    ensures 20 <= c as int < 128
    ensures 20 <= b < 128 ==> c as int == b
    ensures c != '.' ==> c as int == b
  {
    if b < 20 then '.'
    else if b < 128 then b as char
    else '.'
  }

  function Decoded(shown: seq<Byte>): (t: string)
    ensures |t| == |shown|
  {
    seq(|shown|, i requires 0 <= i < |shown| => CharDecrypt(shown[i]))
  }

  /** `'\n'.join` of consecutive 16-character slices. */
  function JoinRows(t: string): string
    requires |t| % 16 == 0
    decreases |t|
  {
    if |t| == 0 then ""
    else if |t| == 16 then t
    else t[..16] + "\n" + JoinRows(t[16..])
  }

  function LStripNewlines(s: string): string
    decreases |s|
  {
    if |s| > 0 && s[0] == '\n' then LStripNewlines(s[1..]) else s
  }

  /** The text pane (model/model.py:380-389): full rows joined by line breaks, then the partial row. */
  function ToText(shown: seq<Byte>): string
  {
    var text := Decoded(shown);
    var cut := |text| - |text| % 16;
    LStripNewlines(JoinRows(text[..cut]) + "\n" + text[cut..])
  }

  lemma {:induction false} JoinRowsLayout(t: string)
    requires |t| % 16 == 0 && |t| >= 16
    ensures |JoinRows(t)| == |t| + |t| / 16 - 1
    ensures forall i :: 0 <= i < |t| ==> JoinRows(t)[i + i / 16] == t[i]
    ensures forall r :: 0 <= r < |t| / 16 - 1 ==> JoinRows(t)[17 * r + 16] == '\n'
    decreases |t|
  {
    if |t| > 16 {
      var rest := t[16..];
      JoinRowsLayout(rest);
      var j := JoinRows(t);
      assert j == t[..16] + "\n" + JoinRows(rest);
      forall i | 0 <= i < |t|
        ensures j[i + i / 16] == t[i]
      {
        if i >= 16 {
          RowBelow(i);
          assert j[i + i / 16] == JoinRows(rest)[(i - 16) + (i - 16) / 16];
          assert rest[i - 16] == t[i];
        } else {
          assert i / 16 == 0;
        }
      }
      forall r | 0 <= r < |t| / 16 - 1
        ensures j[17 * r + 16] == '\n'
      {
        if r > 0 {
          assert 17 * (r - 1) + 16 == 17 * r + 16 - 17;
        }
      }
    }
  }

  /** Column arithmetic: byte i of a later row sits one row of 17 columns further on. */
  lemma RowBelow(i: int)
    requires i >= 16
    ensures (i - 16) + (i - 16) / 16 + 17 == i + i / 16
  {
  }

  /**
   * Text-pane layout: byte i's character sits at column i + i/16, every
   * full row ends in a line break, and nothing else is added.
   */
  lemma {:induction false} ToTextLayout(shown: seq<Byte>)
    ensures |ToText(shown)| == |shown| + |shown| / 16
    ensures forall i :: 0 <= i < |shown| ==> ToText(shown)[i + i / 16] == CharDecrypt(shown[i])
    ensures forall r :: 0 <= r < |shown| / 16 ==> ToText(shown)[17 * r + 16] == '\n'
  {
    if |shown| < 16 {
      ShortTextLayout(shown);
    } else {
      LongTextLayout(shown);
    }
  }

  /** Less than a row: the text pane is the decoded characters alone. */
  lemma ShortTextLayout(shown: seq<Byte>)
    requires |shown| < 16
    ensures ToText(shown) == Decoded(shown)
  {
    var text := Decoded(shown);
    var tail := text[0..];
    assert JoinRows(text[..0]) == "";
    assert "" + "\n" + tail == "\n" + tail;
    assert LStripNewlines("\n" + tail) == LStripNewlines(tail);
    assert tail == text;
    if |text| > 0 {
      assert text[0] != '\n';
    }
  }

  /** At least one full row: the joined rows, a line break, then the partial row. */
  lemma LongTextLayout(shown: seq<Byte>)
    requires |shown| >= 16
    ensures |ToText(shown)| == |shown| + |shown| / 16
    ensures forall i :: 0 <= i < |shown| ==> ToText(shown)[i + i / 16] == CharDecrypt(shown[i])
    ensures forall r :: 0 <= r < |shown| / 16 ==> ToText(shown)[17 * r + 16] == '\n'
  {
    var text := Decoded(shown);
    var n := |text|;
    var k := n / 16;
    var cut := n - n % 16;
    assert cut == 16 * k;
    var tail := text[cut..];
    var head := text[..cut];
    JoinRowsLayout(head);
    var j := JoinRows(head);
    assert j[0] == head[0] == text[0];
    var f := j + "\n" + tail;
    assert f[0] != '\n';
    assert ToText(shown) == f;
    forall i | 0 <= i < n
      ensures f[i + i / 16] == CharDecrypt(shown[i])
    {
      if i < cut {
        assert head[i] == text[i];
      } else {
        assert i / 16 == k;
        assert f[i + i / 16] == tail[i - cut];
      }
    }
  }

  // -----------------------------------------------------------------------
  // to_hex
  // -----------------------------------------------------------------------

  /** `bytes([b]).hex()`: two lowercase digits. */
  function HexPair(b: Byte): string
  {
    [HexDigit(b / 16), HexDigit(b % 16)]
  }

  function HexList(shown: seq<Byte>): (l: seq<string>)
    ensures |l| == |shown|
  {
    seq(|shown|, i requires 0 <= i < |shown| => HexPair(shown[i]))
  }

  function Blanks(m: nat): (l: seq<string>)
    ensures |l| == m
  {
    seq(m, _ => "")
  }

  function Spaces(m: nat): (s: string)
    ensures |s| == m
  {
    seq(m, _ => ' ')
  }

  /** Pads the cell list with empty cells up to a multiple of 16 (model/model.py:362-365). */
  function PadRow(l: seq<string>): (p: seq<string>)
    ensures |p| % 16 == 0
  {
    if |l| % 16 != 0 then l + Blanks(16 - |l| % 16) else l
  }

  /** Python's `sep.join(l)` for a one-character separator. */
  function Join(sep: char, l: seq<string>): string
    decreases |l|
  {
    if |l| == 0 then ""
    else if |l| == 1 then l[0]
    else l[0] + [sep] + Join(sep, l[1..])
  }

  /** The grid rows: each group of 16 cells joined by spaces. */
  function Rows(l: seq<string>): (r: seq<string>)
    requires |l| % 16 == 0
    ensures |r| == |l| / 16
    decreases |l|
  {
    if |l| == 0 then [] else [Join(' ', l[..16])] + Rows(l[16..])
  }

  /** ASCII whitespace, what `str.rstrip()` can meet in the grid. */
  predicate IsSpace(c: char)
  {
    c == ' ' || 9 <= c as int <= 13
  }

  function RStrip(s: string): string
    decreases |s|
  {
    if |s| > 0 && IsSpace(s[|s| - 1]) then RStrip(s[..|s| - 1]) else s
  }

  function HexGrid(shown: seq<Byte>): string
  {
    RStrip(Join('\n', Rows(PadRow(HexList(shown)))))
  }

  /** The hex pane (model/model.py:359-371): the stripped grid and one trailing space. */
  function ToHex(shown: seq<Byte>): string
  {
    HexGrid(shown) + " "
  }

  /** Reads the hex pane back: the two digits at every third column. */
  function ReadHex(s: string): (bs: seq<Byte>)
    ensures |bs| == |s| / 3
  {
    seq(|s| / 3, i requires 0 <= i < |s| / 3 => DigitValue(s[3 * i]) * 16 + DigitValue(s[3 * i + 1]))
  }

  lemma {:induction false} JoinPairs(l: seq<string>)
    requires |l| >= 1
    requires forall i :: 0 <= i < |l| ==> |l[i]| == 2
    ensures |Join(' ', l)| == 3 * |l| - 1
    ensures forall i :: 0 <= i < |l| ==> Join(' ', l)[3 * i] == l[i][0] && Join(' ', l)[3 * i + 1] == l[i][1]
    ensures forall i :: 0 <= i < |l| - 1 ==> Join(' ', l)[3 * i + 2] == ' '
    decreases |l|
  {
    if |l| > 1 {
      var rest := l[1..];
      JoinPairs(rest);
      var j := Join(' ', l);
      assert j == l[0] + " " + Join(' ', rest);
      forall i | 1 <= i < |l|
        ensures j[3 * i] == l[i][0] && j[3 * i + 1] == l[i][1]
      {
        assert rest[i - 1] == l[i];
        assert 3 * (i - 1) == 3 * i - 3;
      }
      forall i | 1 <= i < |l| - 1
        ensures j[3 * i + 2] == ' '
      {
        assert 3 * (i - 1) + 2 == 3 * i - 1;
      }
    }
  }

  lemma {:induction false} JoinBlanks(m: nat)
    requires m >= 1
    ensures Join(' ', Blanks(m)) == Spaces(m - 1)
    decreases m
  {
    if m > 1 {
      JoinBlanks(m - 1);
      assert Blanks(m)[1..] == Blanks(m - 1);
      assert Join(' ', Blanks(m)) == "" + " " + Spaces(m - 2);
    }
  }

  /** Joining trailing empty cells only adds one space per cell. */
  lemma {:induction false} JoinPadded(l: seq<string>, m: nat)
    requires |l| >= 1
    ensures Join(' ', l + Blanks(m)) == Join(' ', l) + Spaces(m)
    decreases |l|
  {
    if |l| == 1 {
      if m > 0 {
        JoinBlanks(m);
        assert (l + Blanks(m))[1..] == Blanks(m);
        assert Join(' ', l + Blanks(m)) == l[0] + " " + Spaces(m - 1);
        assert " " + Spaces(m - 1) == Spaces(m);
      } else {
        assert l + Blanks(m) == l;
      }
    } else {
      JoinPadded(l[1..], m);
      assert (l + Blanks(m))[1..] == l[1..] + Blanks(m);
    }
  }

  lemma {:induction false} RStripSpaces(s: string, m: nat)
    requires |s| > 0 && !IsSpace(s[|s| - 1])
    ensures RStrip(s + Spaces(m)) == s
    decreases m
  {
    if m == 0 {
      assert s + Spaces(0) == s;
    } else {
      assert (s + Spaces(m))[..|s| + m - 1] == s + Spaces(m - 1);
      RStripSpaces(s, m - 1);
    }
  }

  lemma {:induction false} RStripAppend(a: string, y: string)
    requires RStrip(y) != []
    ensures RStrip(a + y) == a + RStrip(y)
    decreases |y|
  {
    if |y| > 0 && IsSpace(y[|y| - 1]) {
      assert (a + y)[..|a + y| - 1] == a + y[..|y| - 1];
      RStripAppend(a, y[..|y| - 1]);
    }
  }

  /** A window of at most 16 bytes is one row of space-joined pairs. */
  lemma HexGridOneRow(shown: seq<Byte>)
    requires 1 <= |shown| <= 16
    ensures HexGrid(shown) == Join(' ', HexList(shown))
  {
    var l := HexList(shown);
    var n := |shown|;
    var p := PadRow(l);
    assert p == l + Blanks(16 - n) by {
      if n == 16 {
        assert l + Blanks(0) == l;
      }
    }
    assert Join('\n', Rows(p)) == Join(' ', p) by {
      assert p[..16] == p && p[16..] == [];
      assert Rows(p) == [Join(' ', p)];
    }
    JoinPadded(l, 16 - n);
    EndsInDigit(shown);
    RStripSpaces(Join(' ', l), 16 - n);
  }

  /** A row of pairs ends in the last byte's low digit, never in whitespace. */
  lemma EndsInDigit(shown: seq<Byte>)
    requires |shown| >= 1
    ensures var x := Join(' ', HexList(shown));
            |x| > 0 && !IsSpace(x[|x| - 1])
  {
    var l := HexList(shown);
    var n := |shown|;
    JoinPairs(l);
    var x := Join(' ', l);
    assert x[|x| - 1] == l[n - 1][1];
    assert l[n - 1][1] == HexDigit(shown[n - 1] % 16);
  }

  /** A longer window is its first row of space-joined pairs, a line break, and the grid of the rest. */
  lemma HexGridRows(shown: seq<Byte>)
    requires |shown| > 16 && HexGrid(shown[16..]) != []
    ensures HexGrid(shown) == Join(' ', HexList(shown[..16])) + "\n" + HexGrid(shown[16..])
  {
    var first := HexList(shown[..16]);
    var tail := PadRow(HexList(shown[16..]));
    var p := PadRow(HexList(shown));
    PadRowSplit(shown);
    var rows := Rows(p);
    assert rows[0] == Join(' ', first) && rows[1..] == Rows(tail);
    assert Join('\n', rows) == Join(' ', first) + "\n" + Join('\n', Rows(tail));
    RStripAppend(Join(' ', first) + "\n", Join('\n', Rows(tail)));
  }

  /** Padding a longer window pads only what follows its first row. */
  lemma PadRowSplit(shown: seq<Byte>)
    requires |shown| > 16
    ensures PadRow(HexList(shown))[..16] == HexList(shown[..16])
    ensures PadRow(HexList(shown))[16..] == PadRow(HexList(shown[16..]))
  {
    var l := HexList(shown);
    var n := |shown|;
    assert l[16..] == HexList(shown[16..]);
    if n % 16 != 0 {
      assert (l + Blanks(16 - n % 16))[16..] == l[16..] + Blanks(16 - n % 16);
      assert (n - 16) % 16 == n % 16;
    }
  }

  /** Byte i's two digits at columns 3i and 3i+1 of g, a separator after each pair but the last. */
  predicate GridShape(g: string, bs: seq<Byte>)
  {
    && |g| == 3 * |bs| - 1
    && (forall i :: 0 <= i < |bs| ==> g[3 * i] == HexDigit(bs[i] / 16) && g[3 * i + 1] == HexDigit(bs[i] % 16))
    && (forall i :: 0 <= i < |bs| - 1 ==> g[3 * i + 2] == if i % 16 == 15 then '\n' else ' ')
  }

  lemma {:induction false} JoinRowShape(bs: seq<Byte>)
    requires 1 <= |bs| <= 16
    ensures GridShape(Join(' ', HexList(bs)), bs)
  {
    var l := HexList(bs);
    JoinPairs(l);
    var j := Join(' ', l);
    forall i | 0 <= i < |bs|
      ensures j[3 * i] == HexDigit(bs[i] / 16) && j[3 * i + 1] == HexDigit(bs[i] % 16)
    {
      assert l[i] == HexPair(bs[i]);
    }
  }

  lemma {:induction false} ConcatRows(row: string, first: seq<Byte>, h: string, rest: seq<Byte>)
    requires |first| == 16 && |rest| >= 1
    requires GridShape(row, first) && GridShape(h, rest)
    ensures GridShape(row + "\n" + h, first + rest)
  {
    var g := row + "\n" + h;
    var bs := first + rest;
    forall i | 0 <= i < |bs|
      ensures g[3 * i] == HexDigit(bs[i] / 16) && g[3 * i + 1] == HexDigit(bs[i] % 16)
    {
      if i >= 16 {
        assert bs[i] == rest[i - 16];
        assert g[3 * i] == h[3 * (i - 16)];
        assert g[3 * i + 1] == h[3 * (i - 16) + 1];
      } else {
        assert bs[i] == first[i];
      }
    }
    forall i | 0 <= i < |bs| - 1
      ensures g[3 * i + 2] == if i % 16 == 15 then '\n' else ' '
    {
      if i >= 16 {
        assert g[3 * i + 2] == h[3 * (i - 16) + 2];
        assert (i - 16) % 16 == i % 16;
      }
    }
  }

  /**
   * Hex-grid layout before the trailing space: byte i's two digits at
   * columns 3i and 3i+1, then a line break after every 16th byte and a
   * space between all other neighbours.
   */
  lemma {:induction false} HexGridLayout(shown: seq<Byte>)
    requires |shown| >= 1
    ensures GridShape(HexGrid(shown), shown)
    decreases |shown|
  {
    if |shown| <= 16 {
      HexGridOneRow(shown);
      JoinRowShape(shown);
    } else {
      HexGridLayout(shown[16..]);
      LongGridShape(shown);
    }
  }

  /** A sequence is its prefix followed by the rest. */
  lemma SplitAt(s: seq<Byte>, i: nat)
    requires i <= |s|
    ensures s[..i] + s[i..] == s
  {
  }

  /** A grid of more than one row has the layout when the grid after its first row has it. */
  lemma LongGridShape(shown: seq<Byte>)
    requires |shown| > 16
    requires GridShape(HexGrid(shown[16..]), shown[16..])
    ensures GridShape(HexGrid(shown), shown)
  {
    var first := shown[..16];
    var rest := shown[16..];
    var row := Join(' ', HexList(first));
    assert HexGrid(shown) == row + "\n" + HexGrid(rest) by {
      assert |HexGrid(rest)| >= 2;
      HexGridRows(shown);
    }
    assert GridShape(row, first) by {
      JoinRowShape(first);
    }
    SplitAt(shown, 16);
    ConcatRows(row, first, HexGrid(rest), rest);
  }

  /**
   * Hex-pane layout: a single space for an empty window; otherwise three
   * columns per byte, the pair at 3i, and after it a line break at the end
   * of every full row but the last, a space elsewhere.
   */
  lemma ToHexLayout(shown: seq<Byte>)
    ensures |shown| == 0 ==> ToHex(shown) == " "
    ensures |ToHex(shown)| == if |shown| == 0 then 1 else 3 * |shown|
    ensures forall i :: 0 <= i < |shown| ==>
      ToHex(shown)[3 * i] == HexDigit(shown[i] / 16) && ToHex(shown)[3 * i + 1] == HexDigit(shown[i] % 16)
    ensures forall i :: 0 <= i < |shown| ==>
      ToHex(shown)[3 * i + 2] == if i % 16 == 15 && i < |shown| - 1 then '\n' else ' '
  {
    if |shown| == 0 {
      assert HexList(shown) == [] && PadRow([]) == [];
      assert Rows([]) == [];
    } else {
      HexGridLayout(shown);
    }
  }

  /** The hex pane determines the window: reading it back gives `shown`. */
  lemma HexRoundTrip(shown: seq<Byte>)
    ensures ReadHex(ToHex(shown)) == shown
  {
    ToHexLayout(shown);
    ReadPairs(ToHex(shown), shown);
  }

  /** Any text carrying byte i's two digits at columns 3i and 3i+1 reads back as those bytes. */
  lemma ReadPairs(s: string, bs: seq<Byte>)
    requires |s| / 3 == |bs|
    requires forall i :: 0 <= i < |bs| ==> 3 * i + 1 < |s|
    requires forall i :: 0 <= i < |bs| ==> s[3 * i] == HexDigit(bs[i] / 16) && s[3 * i + 1] == HexDigit(bs[i] % 16)
    ensures ReadHex(s) == bs
  {
    var r := ReadHex(s);
    forall i | 0 <= i < |bs|
      ensures r[i] == bs[i]
    {
      ReadPair(s[3 * i], s[3 * i + 1], bs[i]);
    }
  }

  /** The two digits of byte b read back as b. */
  lemma ReadPair(hi: char, lo: char, b: Byte)
    requires hi == HexDigit(b / 16) && lo == HexDigit(b % 16)
    ensures DigitValue(hi) * 16 + DigitValue(lo) == b
  {
    DigitRoundTrip(b / 16);
    DigitRoundTrip(b % 16);
  }

  // -----------------------------------------------------------------------
  // The rulers: tens_count and units_count
  // -----------------------------------------------------------------------

  /** `hex(x)[2:]` for x >= 0: lowercase digits, no leading zeros. */
  function HexString(x: nat): (s: string)
    ensures |s| >= 1
    decreases x
  {
    if x < 16 then [HexDigit(x)] else HexString(x / 16) + [HexDigit(x % 16)]
  }

  /** Value of a string of hex digits, most significant first. */
  function HexValue(s: string): nat
    decreases |s|
  {
    if s == [] then 0 else HexValue(s[..|s| - 1]) * 16 + DigitValue(s[|s| - 1])
  }

  function ZFill(s: string, w: nat): (r: string)
    ensures |r| == if |s| >= w then |s| else w
  {
    if |s| >= w then s else seq(w - |s|, _ => '0') + s
  }

  /** One line of the offset ruler: row x starts at offset 16x. */
  function TensLine(x: nat): string
  {
    ZFill(HexString(x), 7) + "0\n"
  }

  function TensLines(lo: nat, hi: nat): string
    decreases hi - lo
  {
    if lo >= hi then "" else TensLine(lo) + TensLines(lo + 1, hi)
  }

  /** The offset ruler (model/model.py:339-341): one line per shown row, plus one. */
  function TensCount(tensOffset: nat, shownLength: nat): string
  {
    TensLines(tensOffset, tensOffset + shownLength / 16 + 1)
  }

  /** The column ruler (model/model.py:350): "00 01 ... 0f". */
  function UnitsCount(): string
  {
    Join(' ', seq(16, d requires 0 <= d < 16 => ['0', HexDigit(d)]))
  }

  function Pow16(k: nat): (p: nat)
    ensures p >= 1
  {
    if k == 0 then 1 else 16 * Pow16(k - 1)
  }

  /** 16^7, the first offset whose ruler line needs nine digits. */
  lemma Pow16Seven()
    ensures Pow16(7) == 0x1000_0000
  {
    assert Pow16(2) == 0x100;
    assert Pow16(4) == 0x1_0000;
    assert Pow16(6) == 0x100_0000;
  }

  /** HexString(x) has at most k digits exactly when x < 16^k. */
  lemma {:induction false} HexStringLength(x: nat, k: nat)
    requires k >= 1
    ensures |HexString(x)| <= k <==> x < Pow16(k)
    decreases x
  {
    if x >= 16 {
      if k == 1 {
        assert |HexString(x)| >= 2;
      } else {
        HexStringLength(x / 16, k - 1);
        assert x / 16 < Pow16(k - 1) <==> x < 16 * Pow16(k - 1);
      }
    } else {
      assert Pow16(k) >= 16 by {
        assert Pow16(k) == 16 * Pow16(k - 1);
      }
    }
  }

  lemma {:induction false} HexStringValue(x: nat)
    ensures HexValue(HexString(x)) == x
    decreases x
  {
    var s := HexString(x);
    if x < 16 {
      DigitRoundTrip(x);
      assert s[..0] == [];
    } else {
      HexStringValue(x / 16);
      DigitRoundTrip(x % 16);
      assert s[..|s| - 1] == HexString(x / 16);
    }
  }

  lemma {:induction false} LeadingZeros(m: nat, s: string)
    ensures HexValue(seq(m, _ => '0') + s) == HexValue(s)
    decreases |s|
  {
    var z := seq(m, _ => '0');
    if s == [] {
      assert z + s == z;
      ZerosValue(m);
    } else {
      assert (z + s)[..|z + s| - 1] == z + s[..|s| - 1];
      LeadingZeros(m, s[..|s| - 1]);
    }
  }

  lemma {:induction false} ZerosValue(m: nat)
    ensures HexValue(seq(m, _ => '0')) == 0
    decreases m
  {
    if m > 0 {
      assert seq(m, _ => '0')[..m - 1] == seq(m - 1, _ => '0');
      ZerosValue(m - 1);
    }
  }

  /**
   * Each ruler line is the hex offset of its row, 16x, zero-padded to
   * eight digits while x < 16^7, and ends in a line break.
   */
  lemma TensLineValue(x: nat)
    ensures var l := TensLine(x);
            && l[|l| - 1] == '\n'
            && HexValue(l[..|l| - 1]) == 16 * x
            && (x < 0x1000_0000 ==> |l| == 9)
  {
    var l := TensLine(x);
    var h := HexString(x);
    var z := ZFill(h, 7);
    assert l[..|l| - 1] == z + "0";
    assert HexValue(z) == x by {
      HexStringValue(x);
      if |h| < 7 {
        LeadingZeros(7 - |h|, h);
      }
    }
    assert HexValue(z + "0") == 16 * x by {
      assert (z + "0")[..|z|] == z;
    }
    assert x < 0x1000_0000 ==> |h| <= 7 by {
      HexStringLength(x, 7);
      Pow16Seven();
    }
  }

  lemma SliceAfter(a: string, b: string, i: nat, j: nat)
    requires |a| <= i <= j <= |a| + |b|
    ensures (a + b)[i..j] == b[i - |a|..j - |a|]
  {
  }

  /** Line r of a + b, for a single nine-column line a, is line r - 1 of b. */
  lemma LineAfter(a: string, b: string, r: int, line: string)
    requires |a| == 9 && r >= 1 && 9 * r + 9 <= |a| + |b|
    requires b[9 * (r - 1) .. 9 * (r - 1) + 9] == line
    ensures (a + b)[9 * r .. 9 * r + 9] == line
  {
    SliceAfter(a, b, 9 * r, 9 * r + 9);
  }

  /** The ruler has one line per shown row plus one, line r for row tensOffset + r. */
  lemma {:induction false} TensLinesLayout(lo: nat, hi: nat)
    requires hi <= 0x1000_0000
    ensures |TensLines(lo, hi)| == if lo >= hi then 0 else 9 * (hi - lo)
    ensures forall r :: 0 <= r < hi - lo ==> TensLines(lo, hi)[9 * r .. 9 * r + 9] == TensLine(lo + r)
    decreases hi - lo
  {
    if lo < hi {
      assert |TensLine(lo)| == 9 by {
        TensLineValue(lo);
      }
      TensLinesLayout(lo + 1, hi);
      assert TensLines(lo, hi) == TensLine(lo) + TensLines(lo + 1, hi);
      PrependLine(lo, hi, TensLine(lo), TensLines(lo + 1, hi));
    }
  }

  /**
   * The offset ruler of a window of n bytes starting at row t: n / 16 + 1
   * lines of nine columns, line r giving the offset of row t + r.
   */
  lemma TensCountLayout(t: nat, n: nat)
    requires t + n / 16 + 1 <= 0x1000_0000
    ensures |TensCount(t, n)| == 9 * (n / 16 + 1)
    ensures forall r :: 0 <= r <= n / 16 ==> TensCount(t, n)[9 * r .. 9 * r + 9] == TensLine(t + r)
  {
    TensLinesLayout(t, t + n / 16 + 1);
  }

  /** Putting line lo in front of the lines from lo + 1 moves each of them one line on. */
  lemma PrependLine(lo: nat, hi: nat, a: string, b: string)
    requires lo < hi && |a| == 9 && a == TensLine(lo)
    requires |b| == 9 * (hi - (lo + 1))
    requires forall q :: 0 <= q < hi - (lo + 1) ==> b[9 * q .. 9 * q + 9] == TensLine(lo + 1 + q)
    ensures forall r :: 0 <= r < hi - lo ==> (a + b)[9 * r .. 9 * r + 9] == TensLine(lo + r)
  {
    forall r | 0 <= r < hi - lo
      ensures (a + b)[9 * r .. 9 * r + 9] == TensLine(lo + r)
    {
      if r > 0 {
        var q := r - 1;
        assert b[9 * q .. 9 * q + 9] == TensLine(lo + 1 + q);
        LineAfter(a, b, r, TensLine(lo + r));
      } else {
        assert (a + b)[..9] == a;
      }
    }
  }

  /** The column ruler lines up with the grid: it is the hex row of bytes 0..15 without its trailing space. */
  lemma UnitsMatchGrid()
    ensures UnitsCount() + " " == ToHex(seq(16, i requires 0 <= i < 16 => i as Byte))
  {
    var row: seq<Byte> := seq(16, i requires 0 <= i < 16 => i as Byte);
    var cells := seq(16, d requires 0 <= d < 16 => ['0', HexDigit(d)]);
    assert HexDigit(0) == '0';
    forall d | 0 <= d < 16
      ensures cells[d] == HexList(row)[d]
    {
      assert row[d] / 16 == 0 && row[d] % 16 == d;
    }
    assert cells == HexList(row);
    HexGridOneRow(row);
  }
}
