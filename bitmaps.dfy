/**
 * The value a glyph holds: its bounding box, its advance and its bit-rows,
 * stored bottom-to-top (`data[i]` is the row at y = bbY + i) with the leftmost
 * pixel in the most significant of `bbW` bits. This module states what the
 * pixels of such a value are, what merging two of them yields, how rows are
 * read from and printed as hex, and how a glyph is drawn as text.
 */
module Bitmaps {
  import opened Wrappers
  import opened Bits
  import opened Text

  datatype Bitmap = Bitmap(bbX: int, bbY: int, bbW: int, bbH: int, advance: int, data: seq<nat>)

  /** What a glyph created with only a name holds. */
  const Empty := Bitmap(0, 0, 0, 0, 0, [])

  /**
   * A row for every line of the box: what indexing rows by `y - bbY` needs.
   * Rows past the top line are never looked at, and a box of negative height
   * has no lines; a glyph with fewer rows makes the source raise IndexError.
   */
  predicate Shaped(g: Bitmap)
  {
    g.bbH <= |g.data|
  }

  /** The glyph invariant: exactly one row per line, each row a `bbW`-bit pattern. */
  predicate WellFormed(g: Bitmap)
  {
    |g.data| == g.bbH && g.bbW >= 0 && forall i :: 0 <= i < |g.data| ==> g.data[i] < Pow2(g.bbW)
  }

  /** Whether pixel (x, y) is inked: inside the box, with its bit set. */
  predicate Pixel(g: Bitmap, x: int, y: int)
    requires Shaped(g)
  {
    g.bbX <= x < g.bbX + g.bbW && g.bbY <= y < g.bbY + g.bbH &&
    Bit(g.data[y - g.bbY], g.bbX + g.bbW - 1 - x)
  }

  // ----- boxes -----

  datatype Box = Box(x: int, y: int, w: int, h: int)

  function BoxOf(g: Bitmap): Box
  {
    Box(g.bbX, g.bbY, g.bbW, g.bbH)
  }

  function Translate(b: Box, dx: int, dy: int): Box
  {
    Box(b.x + dx, b.y + dy, b.w, b.h)
  }

  /** `outer` spans at least the columns and lines `inner` spans, even when `inner` is empty. */
  predicate Covers(outer: Box, inner: Box)
  {
    outer.x <= inner.x && inner.x + inner.w <= outer.x + outer.w &&
    outer.y <= inner.y && inner.y + inner.h <= outer.y + outer.h
  }

  // ----- merge -----

  function Min(a: int, b: int): int { if a < b then a else b }
  function Max(a: int, b: int): int { if a < b then b else a }

  /**
   * Line `y` of `a` merged with `b` drawn at (atX, atY), for a merged box whose
   * right edge is `right`: each operand's row (0 where it has none) moved left
   * until its right edge meets `right`, then OR-ed.
   */
  function MergedRow(a: Bitmap, b: Bitmap, atX: int, atY: int, right: int, y: int): nat
    requires Shaped(a) && Shaped(b)
  {
    var oldRow :=
      if a.bbY <= y < a.bbY + a.bbH then
        var delta := right - (a.bbX + a.bbW);
        if delta > 0 then Shl(a.data[y - a.bbY], delta) else a.data[y - a.bbY]
      else 0;
    var newRow :=
      if atY + b.bbY <= y < atY + b.bbY + b.bbH then
        if atX + b.bbX + b.bbW < right
        then Shl(b.data[y - b.bbY - atY], right - (atX + b.bbX + b.bbW))
        else b.data[y - b.bbY - atY]
      else 0;
    Or(oldRow, newRow)
  }

  /** Lines `y0` .. `y0 + n - 1` of the merge, bottom first. */
  function MergedRows(a: Bitmap, b: Bitmap, atX: int, atY: int, right: int, y0: int, n: nat): (rows: seq<nat>)
    requires Shaped(a) && Shaped(b)
    ensures |rows| == n
  {
    if n == 0 then [] else MergedRows(a, b, atX, atY, right, y0, n - 1) + [MergedRow(a, b, atX, atY, right, y0 + n - 1)]
  }

  /** Row `k` of the merged rows is the merged line at `y0 + k`. */
  lemma {:induction false} MergedRowsAt(a: Bitmap, b: Bitmap, atX: int, atY: int, right: int, y0: int, n: nat, k: nat)
    requires Shaped(a) && Shaped(b) && k < n
    ensures MergedRows(a, b, atX, atY, right, y0, n)[k] == MergedRow(a, b, atX, atY, right, y0 + k)
  {
    if k < n - 1 {
      MergedRowsAt(a, b, atX, atY, right, y0, n - 1, k);
    }
  }

  /** The rows of a merge are built one line at a time, bottom up. */
  lemma MergedRowsStep(a: Bitmap, b: Bitmap, atX: int, atY: int, right: int, y0: int, n: nat)
    requires Shaped(a) && Shaped(b)
    ensures MergedRows(a, b, atX, atY, right, y0, n + 1) ==
            MergedRows(a, b, atX, atY, right, y0, n) + [MergedRow(a, b, atX, atY, right, y0 + n)]
  {
  }

  /** The number of lines `range(y0, y0 + h)` visits: none for a height that is not positive. */
  function Lines(h: int): nat
  {
    if h > 0 then h else 0
  }

  /** `a` after `a.merge_glyph(b, atX, atY)`, computed from the two prior values only. */
  function Merged(a: Bitmap, b: Bitmap, atX: int, atY: int): (r: Bitmap)
    requires Shaped(a) && Shaped(b)
    ensures Shaped(r)
  {
    var newX := Min(a.bbX, atX + b.bbX);
    var newY := Min(a.bbY, atY + b.bbY);
    var right := Max(a.bbX + a.bbW, atX + b.bbX + b.bbW);
    var top := Max(a.bbY + a.bbH, atY + b.bbY + b.bbH);
    Bitmap(newX, newY, right - newX, top - newY, Max(a.advance, atX + b.advance),
           MergedRows(a, b, atX, atY, right, newY, Lines(top - newY)))
  }

  /** The fields of a merge, written out; with no negative height there is a row per line. */
  lemma MergedFields(a: Bitmap, b: Bitmap, atX: int, atY: int)
    requires Shaped(a) && Shaped(b)
    ensures var newX := Min(a.bbX, atX + b.bbX);
            var newY := Min(a.bbY, atY + b.bbY);
            var right := Max(a.bbX + a.bbW, atX + b.bbX + b.bbW);
            var top := Max(a.bbY + a.bbH, atY + b.bbY + b.bbH);
            (a.bbH >= 0 || b.bbH >= 0 ==> top - newY >= 0) &&
            Merged(a, b, atX, atY) ==
            Bitmap(newX, newY, right - newX, top - newY, Max(a.advance, atX + b.advance),
                   MergedRows(a, b, atX, atY, right, newY, Lines(top - newY)))
  {
  }

  /**
   * The merged box covers the receiver's box and the translated source box, and
   * is the least box that does; so even an empty receiver pulls its origin in.
   */
  lemma MergeBox(a: Bitmap, b: Bitmap, atX: int, atY: int, c: Box)
    requires Shaped(a) && Shaped(b)
    ensures Covers(BoxOf(Merged(a, b, atX, atY)), BoxOf(a))
    ensures Covers(BoxOf(Merged(a, b, atX, atY)), Translate(BoxOf(b), atX, atY))
    ensures Covers(c, BoxOf(a)) && Covers(c, Translate(BoxOf(b), atX, atY)) ==>
            Covers(c, BoxOf(Merged(a, b, atX, atY)))
  {
  }

  /** The merged advance reaches both the receiver's pen position and the source's, and no further. */
  lemma MergeAdvance(a: Bitmap, b: Bitmap, atX: int, atY: int)
    requires Shaped(a) && Shaped(b)
    ensures var r := Merged(a, b, atX, atY);
            r.advance >= a.advance && r.advance >= atX + b.advance &&
            (r.advance == a.advance || r.advance == atX + b.advance)
  {
  }

  /**
   * A row moved left so that its right edge `edge` meets `right`: the bit for
   * column x is the row's bit for x when x is inside [edge - w, edge), clear otherwise.
   */
  lemma ShiftedRowBit(row: nat, w: nat, edge: int, right: int, x: int)
    requires row < Pow2(w) && edge <= right && x < right
    ensures var s := if right - edge > 0 then Shl(row, right - edge) else row;
            Bit(s, right - 1 - x) <==> edge - w <= x < edge && Bit(row, edge - 1 - x)
  {
    var d := right - edge;
    var j := right - 1 - x;
    BitShl(row, d, j);
    assert Shl(row, 0) == row;
    if x < edge - w {
      BitAboveWidth(row, w, j - d);
    }
  }

  /** A shifted row stays within the width of the box it was shifted into. */
  lemma ShiftedRowBound(row: nat, w: nat, left: int, edge: int, newLeft: int, right: int)
    requires row < Pow2(w) && edge == left + w && newLeft <= left && edge <= right
    ensures var s := if right - edge > 0 then Shl(row, right - edge) else row;
            s < Pow2(right - newLeft)
  {
    var d := right - edge;
    ShlBound(row, w, d);
    assert Shl(row, 0) == row;
    Pow2Monotone(w + d, right - newLeft);
  }

  /** One merged line fits between the merged box's left edge `left` and its right edge `right`. */
  lemma MergedRowBound(a: Bitmap, b: Bitmap, atX: int, atY: int, left: int, right: int, y: int)
    requires WellFormed(a) && WellFormed(b)
    requires left <= a.bbX && a.bbX + a.bbW <= right && left <= atX + b.bbX && atX + b.bbX + b.bbW <= right
    ensures MergedRow(a, b, atX, atY, right, y) < Pow2(right - left)
  {
    var oldRow: nat := 0;
    if a.bbY <= y < a.bbY + a.bbH {
      var row := a.data[y - a.bbY];
      ShiftedRowBound(row, a.bbW, a.bbX, a.bbX + a.bbW, left, right);
      oldRow := if right - (a.bbX + a.bbW) > 0 then Shl(row, right - (a.bbX + a.bbW)) else row;
    }
    var newRow: nat := 0;
    if atY + b.bbY <= y < atY + b.bbY + b.bbH {
      var row := b.data[y - b.bbY - atY];
      var edge := atX + b.bbX + b.bbW;
      ShiftedRowBound(row, b.bbW, atX + b.bbX, edge, left, right);
      newRow := if right - edge > 0 then Shl(row, right - edge) else row;
    }
    assert MergedRow(a, b, atX, atY, right, y) == Or(oldRow, newRow);
    OrBound(oldRow, newRow, right - left);
  }

  /** Merging well-formed glyphs gives a well-formed glyph: `bbH` rows of `bbW` bits. */
  lemma MergeWellFormed(a: Bitmap, b: Bitmap, atX: int, atY: int)
    requires WellFormed(a) && WellFormed(b)
    ensures WellFormed(Merged(a, b, atX, atY))
  {
    var r := Merged(a, b, atX, atY);
    MergedFields(a, b, atX, atY);
    var right := r.bbX + r.bbW;
    forall k | 0 <= k < |r.data|
      ensures r.data[k] < Pow2(r.bbW)
    {
      MergedRowsAt(a, b, atX, atY, right, r.bbY, r.bbH, k);
      MergedRowBound(a, b, atX, atY, r.bbX, right, r.bbY + k);
    }
  }

  /** Bit `right - 1 - x` of one merged line is the pixel union at column x. */
  lemma MergedRowBit(a: Bitmap, b: Bitmap, atX: int, atY: int, right: int, x: int, y: int)
    requires WellFormed(a) && WellFormed(b)
    requires a.bbX + a.bbW <= right && atX + b.bbX + b.bbW <= right && x < right
    ensures Bit(MergedRow(a, b, atX, atY, right, y), right - 1 - x) <==> Pixel(a, x, y) || Pixel(b, x - atX, y - atY)
  {
    var j := right - 1 - x;
    var oldRow: nat := 0;
    if a.bbY <= y < a.bbY + a.bbH {
      var row := a.data[y - a.bbY];
      ShiftedRowBit(row, a.bbW, a.bbX + a.bbW, right, x);
      oldRow := if right - (a.bbX + a.bbW) > 0 then Shl(row, right - (a.bbX + a.bbW)) else row;
    } else {
      BitZero(j);
    }
    assert Bit(oldRow, j) <==> Pixel(a, x, y);
    var newRow: nat := 0;
    if atY + b.bbY <= y < atY + b.bbY + b.bbH {
      var row := b.data[y - b.bbY - atY];
      var edge := atX + b.bbX + b.bbW;
      ShiftedRowBit(row, b.bbW, edge, right, x);
      newRow := if right - edge > 0 then Shl(row, right - edge) else row;
    } else {
      BitZero(j);
    }
    assert Bit(newRow, j) <==> Pixel(b, x - atX, y - atY);
    assert MergedRow(a, b, atX, atY, right, y) == Or(oldRow, newRow);
    BitOr(oldRow, newRow, j);
  }

  /**
   * Pixel union: after the merge, (x, y) is inked exactly when it was inked in
   * the receiver or the source has ink at (x - atX, y - atY).
   */
  lemma MergePixel(a: Bitmap, b: Bitmap, atX: int, atY: int, x: int, y: int)
    requires WellFormed(a) && WellFormed(b)
    ensures Pixel(Merged(a, b, atX, atY), x, y) <==> Pixel(a, x, y) || Pixel(b, x - atX, y - atY)
  {
    var r := Merged(a, b, atX, atY);
    MergedFields(a, b, atX, atY);
    var right := r.bbX + r.bbW;
    if r.bbX <= x < right && r.bbY <= y < r.bbY + r.bbH {
      MergedRowsAt(a, b, atX, atY, right, r.bbY, r.bbH, y - r.bbY);
      MergedRowBit(a, b, atX, atY, right, x, y);
    } else {
      MergeBox(a, b, atX, atY, BoxOf(r));
      assert !Pixel(a, x, y);
      assert !Pixel(b, x - atX, y - atY);
    }
  }

  /** Merging a glyph onto a copy of itself at (0, 0) changes nothing. */
  lemma MergeSelfAtOrigin(a: Bitmap)
    requires WellFormed(a)
    ensures Merged(a, a, 0, 0) == a
  {
    var r := Merged(a, a, 0, 0);
    MergedFields(a, a, 0, 0);
    forall k | 0 <= k < |a.data|
      ensures r.data[k] == a.data[k]
    {
      MergedRowsAt(a, a, 0, 0, a.bbX + a.bbW, a.bbY, a.bbH, k);
      OrSelf(a.data[k]);
    }
  }

  /**
   * Drawing `b` on `a` at (dx, dy) inks the same pixels as drawing `a` on `b`
   * at (-dx, -dy), once the second result is moved back by (dx, dy).
   */
  lemma MergeTranslationSymmetric(a: Bitmap, b: Bitmap, dx: int, dy: int, x: int, y: int)
    requires WellFormed(a) && WellFormed(b)
    ensures Pixel(Merged(a, b, dx, dy), x, y) <==> Pixel(Merged(b, a, -dx, -dy), x - dx, y - dy)
  {
    MergePixel(a, b, dx, dy, x, y);
    MergePixel(b, a, -dx, -dy, x - dx, y - dy);
  }

  /** The four lines of the 4x4 diagonal that the example below builds. */
  lemma MergeSelfExampleRows(g: Bitmap)
    requires g.bbX == 0 && g.bbY == 0 && g.bbW == 2 && g.bbH == 2 && g.data == [2, 1]
    ensures MergedRow(g, g, 2, 2, 4, 0) == 8 && MergedRow(g, g, 2, 2, 4, 1) == 4
    ensures MergedRow(g, g, 2, 2, 4, 2) == 2 && MergedRow(g, g, 2, 2, 4, 3) == 1
  {
    assert Shl(2, 2) == 8 && Shl(1, 2) == 4;
  }

  /** The 2x2 diagonal glyph drawn onto itself at (2, 2) becomes a 4x4 diagonal with advance 5. */
  lemma MergeSelfExample(g: Bitmap)
    requires g.bbX == 0 && g.bbY == 0 && g.bbW == 2 && g.bbH == 2 && g.advance == 3 && g.data == [2, 1]
    ensures Merged(g, g, 2, 2) == Bitmap(0, 0, 4, 4, 5, [8, 4, 2, 1])
  {
    var rows := MergedRows(g, g, 2, 2, 4, 0, 4);
    MergeSelfExampleRows(g);
    MergedRowsAt(g, g, 2, 2, 4, 0, 4, 0);
    MergedRowsAt(g, g, 2, 2, 4, 0, 4, 1);
    MergedRowsAt(g, g, 2, 2, 4, 0, 4, 2);
    MergedRowsAt(g, g, 2, 2, 4, 0, 4, 3);
    assert rows == [8, 4, 2, 1];
    assert Merged(g, g, 2, 2) == Bitmap(0, 0, 4, 4, 5, rows);
  }

  // ----- hex rows -----

  datatype RowError = NotHex(row: string) | NegativeShift(row: string)

  /**
   * One row of `_set_data`: `int(row, 16) >> (len(row) * 4 - bbW)`, failing where
   * `int` rejects the text or the shift count is negative.
   */
  function ParseRow(row: string, bbW: int): Result<nat, RowError>
  {
    match ParseHex(row)
    case None => Failure(NotHex(row))
    case Some(v) =>
      var pad := |row| * 4 - bbW;
      if pad < 0 then Failure(NegativeShift(row)) else Success(Shr(v, pad))
  }

  /** A row that reads at all keeps no more than `bbW` bits. */
  lemma ParseRowBound(row: string, bbW: int)
    requires bbW >= 0 && ParseRow(row, bbW).Success?
    ensures ParseRow(row, bbW).value < Pow2(bbW)
  {
    var t := Strip(row);
    HexValueBound(t);
    var pad := |row| * 4 - bbW;
    Pow2Monotone(4 * |t|, bbW + pad);
    ShrBound(HexValue(t), bbW, pad);
  }

  /**
   * The rows of a glyph from hex lines given top-to-bottom: the first failing
   * line aborts; otherwise the values come back bottom-to-top.
   */
  function DecodeRows(rows: seq<string>, bbW: int): Result<seq<nat>, RowError>
  {
    if rows == [] then Success([])
    else
      match ParseRow(rows[0], bbW)
      case Failure(e) => Failure(e)
      case Success(v) =>
        match DecodeRows(rows[1..], bbW)
        case Failure(e) => Failure(e)
        case Success(rest) => Success(rest + [v])
  }

  /**
   * Decoding succeeds exactly when every line reads; then the values are the
   * lines' values bottom-to-top; otherwise the error is that of the first
   * line that does not read.
   */
  lemma {:induction false} DecodeRowsSpec(rows: seq<string>, bbW: int)
    ensures var r := DecodeRows(rows, bbW);
      (r.Success? <==> forall i :: 0 <= i < |rows| ==> ParseRow(rows[i], bbW).Success?) &&
      (r.Success? ==> |r.value| == |rows| &&
                      forall i :: 0 <= i < |rows| ==> r.value[i] == ParseRow(rows[|rows| - 1 - i], bbW).value) &&
      (r.Failure? ==> exists i :: 0 <= i < |rows| && ParseRow(rows[i], bbW) == Failure(r.error) &&
                                  forall j :: 0 <= j < i ==> ParseRow(rows[j], bbW).Success?)
    decreases |rows|
  {
    if rows != [] {
      var tail := rows[1..];
      DecodeRowsSpec(tail, bbW);
      assert forall i :: 1 <= i < |rows| ==> rows[i] == tail[i - 1];
      var r := DecodeRows(rows, bbW);
      if ParseRow(rows[0], bbW).Success? {
        var rt := DecodeRows(tail, bbW);
        if rt.Failure? {
          var k :| 0 <= k < |tail| && ParseRow(tail[k], bbW) == Failure(rt.error) &&
                   forall j :: 0 <= j < k ==> ParseRow(tail[j], bbW).Success?;
          assert ParseRow(rows[k + 1], bbW) == Failure(r.error);
          assert forall j :: 0 <= j < k + 1 ==> ParseRow(rows[j], bbW).Success? by {
            forall j | 0 <= j < k + 1 ensures ParseRow(rows[j], bbW).Success? {
              if j > 0 {
                assert rows[j] == tail[j - 1];
              }
            }
          }
        } else {
          forall i | 0 <= i < |rows| ensures r.value[i] == ParseRow(rows[|rows| - 1 - i], bbW).value {
            if i < |tail| {
              assert rows[|rows| - 1 - i] == tail[|tail| - 1 - i];
            }
          }
        }
      } else {
        assert ParseRow(rows[0], bbW) == Failure(r.error);
      }
    }
  }

  /** Rows read from hex are `bbW`-bit patterns, one per line. */
  lemma DecodeRowsWellFormed(rows: seq<string>, bbX: int, bbY: int, bbW: int, advance: int)
    requires bbW >= 0 && DecodeRows(rows, bbW).Success?
    ensures WellFormed(Bitmap(bbX, bbY, bbW, |rows|, advance, DecodeRows(rows, bbW).value))
  {
    var d := DecodeRows(rows, bbW).value;
    DecodeRowsSpec(rows, bbW);
    forall i | 0 <= i < |d| ensures d[i] < Pow2(bbW) {
      ParseRowBound(rows[|rows| - 1 - i], bbW);
    }
  }

  /** Bits of padding that round a `bbW`-bit row up to whole hex digits. */
  function PaddingBits(bbW: int): nat
  {
    if bbW % 4 == 0 then 0 else 4 - bbW % 4
  }

  /**
   * One row as `get_data` prints it: `"%*X" % (rowWidth, row << paddingBits)`
   * with `rowWidth = bbW // 4`, which rounds down and pads with blanks.
   */
  function EncodeRowAsWritten(row: nat, bbW: int): string
  {
    FormatHex(bbW / 4, Shl(row, PaddingBits(bbW)))
  }

  /**
   * For a width that is not a multiple of four the printed row can come out one
   * digit short, and reading it back fails: a 9-pixel blank row prints as " 0",
   * and `_set_data` then shifts by 2 * 4 - 9 = -1.
   */
  lemma EncodeRowAsWrittenShort()
    ensures EncodeRowAsWritten(0, 9) == " 0"
    ensures ParseRow(EncodeRowAsWritten(0, 9), 9).Failure?
  {
    assert PaddingBits(9) == 3;
    assert Shl(0, 3) == 0;
    assert HexString(0) == "0";
    assert FormatHex(2, 0) == Spaces(1) + "0";
    assert Spaces(1) == " ";
    HexRoundTrip(2, 0);
  }

  /**
   * One row as `get_data` evidently means to print it: `"%*X"` at ceil(bbW / 4)
   * columns, the row shifted left onto a nibble boundary.
   */
  function EncodeRow(row: nat, bbW: int): string
  {
    FormatHex((bbW + 3) / 4, Shl(row, PaddingBits(bbW)))
  }

  /** When the width is a whole number of hex digits, the row prints as the source prints it. */
  lemma EncodeRowAsWrittenAgrees(row: nat, bbW: int)
    requires bbW % 4 == 0
    ensures EncodeRow(row, bbW) == EncodeRowAsWritten(row, bbW)
  {
    assert (bbW + 3) / 4 == bbW / 4;
  }

  /** What `get_data` returns: the rows as the source prints them, top-to-bottom. */
  function EncodeRowsAsWritten(data: seq<nat>, bbW: int): (r: seq<string>)
    ensures |r| == |data|
  {
    seq(|data|, i requires 0 <= i < |data| => EncodeRowAsWritten(data[|data| - 1 - i], bbW))
  }

  /** The corrected printing of the rows, top-to-bottom. */
  function EncodeRows(data: seq<nat>, bbW: int): (r: seq<string>)
    ensures |r| == |data|
  {
    seq(|data|, i requires 0 <= i < |data| => EncodeRow(data[|data| - 1 - i], bbW))
  }

  /** When the width is a whole number of hex digits, `get_data` prints what the corrected printing does. */
  lemma EncodeRowsAsWrittenAgrees(data: seq<nat>, bbW: int)
    requires bbW % 4 == 0
    ensures EncodeRowsAsWritten(data, bbW) == EncodeRows(data, bbW)
  {
    forall i | 0 <= i < |data|
      ensures EncodeRowsAsWritten(data, bbW)[i] == EncodeRows(data, bbW)[i]
    {
      EncodeRowAsWrittenAgrees(data[|data| - 1 - i], bbW);
    }
  }

  lemma {:induction false} ShrShl(v: nat, k: nat)
    ensures Shr(Shl(v, k), k) == v
  {
    if k > 0 {
      ShrShl(v, k - 1);
      assert (2 * Shl(v, k - 1)) / 2 == Shl(v, k - 1);
    }
  }

  lemma ShrZero(k: nat)
    ensures Shr(0, k) == 0
  {
  }

  /** A line that reads as hex and is wide enough yields its value less the padding bits. */
  lemma ParseRowOf(s: string, bbW: int, v: nat)
    requires ParseHex(s) == Some(v) && |s| * 4 >= bbW
    ensures ParseRow(s, bbW) == Success(Shr(v, |s| * 4 - bbW))
  {
  }

  /** The row, moved onto a nibble boundary, fits in ceil(bbW / 4) hex digits. */
  lemma PaddedRowFits(row: nat, bbW: int)
    requires bbW >= 0 && row < Pow2(bbW)
    ensures 4 * ((bbW + 3) / 4) == bbW + PaddingBits(bbW)
    ensures Shl(row, PaddingBits(bbW)) < Pow2(4 * ((bbW + 3) / 4))
  {
    ShlBound(row, bbW, PaddingBits(bbW));
  }

  /** The printed row reads back as the padded row and, when bbW > 0, is ceil(bbW / 4) columns wide. */
  lemma EncodeRowText(row: nat, bbW: int)
    requires bbW >= 0 && row < Pow2(bbW)
    ensures ParseHex(EncodeRow(row, bbW)) == Some(Shl(row, PaddingBits(bbW)))
    ensures bbW > 0 ==> |EncodeRow(row, bbW)| == (bbW + 3) / 4
    ensures bbW == 0 ==> |EncodeRow(row, bbW)| == 1
  {
    var k := (bbW + 3) / 4;
    var v := Shl(row, PaddingBits(bbW));
    PaddedRowFits(row, bbW);
    HexRoundTrip(k, v);
    FormatHexLength(k, v);
    if bbW > 0 {
      HexStringLength(v, k);
    } else {
      assert v == 0 && HexString(0) == "0";
    }
  }

  /** Every `bbW`-bit row survives being printed and read back. */
  lemma RowRoundTrip(row: nat, bbW: int)
    requires bbW >= 0 && row < Pow2(bbW)
    ensures ParseRow(EncodeRow(row, bbW), bbW) == Success(row)
  {
    var s := EncodeRow(row, bbW);
    var v := Shl(row, PaddingBits(bbW));
    EncodeRowText(row, bbW);
    if bbW > 0 {
      PaddedRowFits(row, bbW);
      ParseRowOf(s, bbW, v);
      ShrShl(row, PaddingBits(bbW));
    } else {
      assert row == 0 && v == 0;
      ParseRowOf(s, bbW, v);
      ShrZero(4);
    }
  }

  /** Printing the rows of a well-formed glyph and reading them back gives the rows again. */
  lemma RowsRoundTrip(g: Bitmap)
    requires WellFormed(g)
    ensures DecodeRows(EncodeRows(g.data, g.bbW), g.bbW) == Success(g.data)
  {
    var n := |g.data|;
    var rows := EncodeRows(g.data, g.bbW);
    forall i | 0 <= i < n ensures ParseRow(rows[i], g.bbW) == Success(g.data[n - 1 - i]) {
      var v := g.data[n - 1 - i];
      assert rows[i] == EncodeRow(v, g.bbW);
      RowRoundTrip(v, g.bbW);
    }
    DecodeRowsOf(rows, g.bbW, g.data);
  }

  /**
   * What `get_data` does promise: when bbW is a multiple of four, the rows of a
   * well-formed glyph as the source prints them read back as the rows.
   */
  lemma PrintedRowsRoundTrip(g: Bitmap)
    requires WellFormed(g) && g.bbW % 4 == 0
    ensures DecodeRows(EncodeRowsAsWritten(g.data, g.bbW), g.bbW) == Success(g.data)
  {
    EncodeRowsAsWrittenAgrees(g.data, g.bbW);
    RowsRoundTrip(g);
  }

  /** Lines that each read as the matching value, taken bottom-up, decode to those values. */
  lemma DecodeRowsOf(rows: seq<string>, bbW: int, vals: seq<nat>)
    requires |rows| == |vals|
    requires forall i :: 0 <= i < |rows| ==> ParseRow(rows[i], bbW) == Success(vals[|rows| - 1 - i])
    ensures DecodeRows(rows, bbW) == Success(vals)
  {
    var r := DecodeRows(rows, bbW);
    DecodeRowsSpec(rows, bbW);
    assert r.Success?;
    forall i | 0 <= i < |vals| ensures r.value[i] == vals[i] {
      assert ParseRow(rows[|rows| - 1 - i], bbW) == Success(vals[i]);
    }
    assert r.value == vals;
  }

  /** The first failing line, after lines that all read, decides the error `_set_data` raises. */
  lemma DecodeRowsFails(rows: seq<string>, bbW: int, i: nat)
    requires i < |rows| && ParseRow(rows[i], bbW).Failure?
    requires forall j :: 0 <= j < i ==> ParseRow(rows[j], bbW).Success?
    ensures DecodeRows(rows, bbW) == Failure(ParseRow(rows[i], bbW).error)
  {
    DecodeRowsSpec(rows, bbW);
    var r := DecodeRows(rows, bbW);
    var k :| 0 <= k < |rows| && ParseRow(rows[k], bbW) == Failure(r.error) &&
             forall j :: 0 <= j < k ==> ParseRow(rows[j], bbW).Success?;
    assert ParseRow(rows[k], bbW).Failure? && ParseRow(rows[i], bbW).Failure?;
  }

  /** When the width is a whole number of hex digits the printed row is exactly bbW / 4 digits. */
  lemma EncodeRowWidth(row: nat, bbW: int)
    requires bbW >= 4 && bbW % 4 == 0 && row < Pow2(bbW)
    ensures |EncodeRow(row, bbW)| == bbW / 4
  {
    EncodeRowText(row, bbW);
  }

  // ----- text rendering -----

  /** What `__str__` draws where there is no ink: the origin, the axes, or background. */
  function PaddingChar(x: int, y: int): char
  {
    if x == 0 && y == 0 then '+' else if x == 0 then '|' else if y == 0 then '-' else '.'
  }

  /** The character drawn at (x, y): '#' exactly on an inked pixel. */
  function Cell(g: Bitmap, x: int, y: int): (c: char)
    requires Shaped(g)
    ensures c == '#' <==> Pixel(g, x, y)
    ensures c != '\n'
  {
    if Pixel(g, x, y) then '#' else PaddingChar(x, y)
  }

  /** The drawn window: the glyph's box, stretched to take in the origin. */
  function MinX(g: Bitmap): int { Min(0, g.bbX) }
  function MaxX(g: Bitmap): int { Max(0, g.bbX + g.bbW - 1) }
  function MinY(g: Bitmap): int { Min(0, g.bbY) }
  function MaxY(g: Bitmap): int { Max(0, g.bbY + g.bbH - 1) }

  /** The text line for height `y`: one character per x from MinX to MaxX. */
  function RenderLine(g: Bitmap, y: int): (line: string)
    requires Shaped(g)
  {
    seq(MaxX(g) - MinX(g) + 1, j => Cell(g, MinX(g) + j, y))
  }

  /** The text lines of the drawing, the top line (y = MaxY) first. */
  function RenderLines(g: Bitmap): (lines: seq<string>)
    requires Shaped(g)
  {
    seq(MaxY(g) - MinY(g) + 1, k => RenderLine(g, MaxY(g) - k))
  }

  /**
   * Reading the drawing back line by line: one line per y from MaxY down to
   * MinY, one character per x from MinX to MaxX, '#' exactly on inked pixels;
   * the window always holds the origin and the whole box.
   */
  lemma RenderShowsPixels(g: Bitmap, x: int, y: int)
    requires Shaped(g) && g.bbW >= 0
    requires MinX(g) <= x <= MaxX(g) && MinY(g) <= y <= MaxY(g)
    ensures var lines := SplitOn(Join(RenderLines(g), '\n'), '\n');
            |lines| == MaxY(g) - MinY(g) + 1 &&
            |lines[MaxY(g) - y]| == MaxX(g) - MinX(g) + 1 &&
            lines[MaxY(g) - y][x - MinX(g)] == (if Pixel(g, x, y) then '#' else PaddingChar(x, y))
    ensures MinX(g) <= 0 <= MaxX(g) && MinY(g) <= 0 <= MaxY(g)
    ensures Pixel(g, x, y) ==> g.bbX <= x < g.bbX + g.bbW && g.bbY <= y < g.bbY + g.bbH
  {
    var lines := RenderLines(g);
    forall i | 0 <= i < |lines| ensures '\n' !in lines[i] {
      var line := lines[i];
      assert line == RenderLine(g, MaxY(g) - i);
      forall j | 0 <= j < |line| ensures line[j] != '\n' {
        assert line[j] == Cell(g, MinX(g) + j, MaxY(g) - i);
      }
    }
    SplitJoin(lines, '\n');
    assert lines[MaxY(g) - y] == RenderLine(g, y);
    assert RenderLine(g, y)[x - MinX(g)] == Cell(g, x, y);
  }
}
