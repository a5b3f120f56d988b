/**
 * The font's objects: a `Glyph` whose fields `merge_glyph` and `_set_data`
 * update in place, and a `Font` that owns a list of glyphs, an index of them
 * by codepoint, the font's properties and its comment lines.
 */
module Model {
  import opened Wrappers
  import opened Bits
  import opened Text
  import opened Bitmaps

  /**
   * Why a glyph operation raised: a row `_set_data` rejects, a codepoint
   * `new_glyph_from_data` finds taken, or a row the box calls for that the
   * glyph lacks (the IndexError of `merge_glyph` and `__str__`).
   */
  datatype GlyphError = BadRow(row: RowError) | GlyphExists(codepoint: int) | MissingRow

  /**
   * A property value: an int, a string, or the point size, kept as the text
   * `str()` gives for the float (floating point is not modelled).
   */
  datatype PropValue = Int(i: int) | Str(s: string) | Real(text: string)

  /**
   * The loop of `merge_glyph`: the merged box and advance, then the merged rows
   * from the bottom line up.
   */
  method MergeBitmaps(a: Bitmap, b: Bitmap, atX: int, atY: int) returns (m: Bitmap)
    requires Shaped(a) && Shaped(b)
    ensures m == Merged(a, b, atX, atY)
  {
    MergedFields(a, b, atX, atY);
    var newX := Min(a.bbX, atX + b.bbX);
    var newY := Min(a.bbY, atY + b.bbY);
    var right := Max(a.bbX + a.bbW, atX + b.bbX + b.bbW);
    var top := Max(a.bbY + a.bbH, atY + b.bbY + b.bbH);
    var newAdvance := Max(a.advance, atX + b.advance);
    var newData: seq<nat> := [];
    var y := newY;
    while y < top
      invariant newY <= y && (y <= top || y == newY)
      invariant newData == MergedRows(a, b, atX, atY, right, newY, y - newY)
    {
      MergedRowsStep(a, b, atX, atY, right, newY, y - newY);
      newData := newData + [MergedRow(a, b, atX, atY, right, y)];
      y := y + 1;
    }
    m := Bitmap(newX, newY, right - newX, top - newY, newAdvance, newData);
  }

  class Glyph {
    const name: string
    var bbX: int
    var bbY: int
    var bbW: int
    var bbH: int
    var advance: int
    /** Bit-rows bottom-to-top: `data[i]` is the row at y = bbY + i. */
    var data: seq<nat>
    const codepoint: int

    function Value(): Bitmap
      reads this
    {
      Bitmap(bbX, bbY, bbW, bbH, advance, data)
    }

    /** `Glyph(name, None, bbX, bbY, bbW, bbH, advance, codepoint)`: no rows yet; no codepoint is -1. */
    constructor (name: string, bbX: int, bbY: int, bbW: int, bbH: int, advance: int, codepoint: Option<int>)
      ensures this.name == name && Value() == Bitmap(bbX, bbY, bbW, bbH, advance, [])
      ensures this.codepoint == if codepoint.Some? then codepoint.value else -1
    {
      this.name := name;
      this.bbX := bbX;
      this.bbY := bbY;
      this.bbW := bbW;
      this.bbH := bbH;
      this.data := [];
      this.advance := advance;
      this.codepoint := if codepoint.Some? then codepoint.value else -1;
    }

    /**
     * `_set_data`: read hex lines given top-to-bottom into rows stored
     * bottom-to-top. On a line `int(row, 16)` rejects, or one too short for
     * `bbW`, it stops with that line's error and `data` holds the rows read so far.
     */
    method SetData(rows: seq<string>) returns (err: Option<RowError>)
      modifies this
      ensures bbX == old(bbX) && bbY == old(bbY) && bbW == old(bbW) && bbH == old(bbH) && advance == old(advance)
      ensures err.None? ==> DecodeRows(rows, bbW) == Success(data)
      ensures err.Some? ==> DecodeRows(rows, bbW) == Failure(err.value)
      ensures err.Some? ==> |data| < |rows| && ParseRow(rows[|data|], bbW) == Failure(err.value) &&
                            forall j :: 0 <= j < |data| ==> ParseRow(rows[j], bbW) == Success(data[j])
    {
      data := [];
      var i := 0;
      while i < |rows|
        invariant 0 <= i <= |rows| && |data| == i
        invariant forall j :: 0 <= j < i ==> ParseRow(rows[j], bbW) == Success(data[j])
        invariant bbX == old(bbX) && bbY == old(bbY) && bbW == old(bbW) && bbH == old(bbH) && advance == old(advance)
      {
        var row := rows[i];
        var paddingBits := |row| * 4 - bbW;
        var v := ParseHex(row);
        if v.None? {
          assert ParseRow(row, bbW) == Failure(NotHex(row));
          err := Some(NotHex(row));
          DecodeRowsFails(rows, bbW, i);
          return;
        }
        if paddingBits < 0 {
          assert ParseRow(row, bbW) == Failure(NegativeShift(row));
          err := Some(NegativeShift(row));
          DecodeRowsFails(rows, bbW, i);
          return;
        }
        data := data + [Shr(v.value, paddingBits)];
        i := i + 1;
      }
      // Make the list indices match the coordinate system.
      var reversed := Reversed(data);
      DecodeRowsOf(rows, bbW, reversed);
      data := reversed;
      err := None;
    }

    /**
     * `get_data`: each row shifted onto a nibble boundary and printed in hex
     * at `bbW // 4` columns, top row first. Only when bbW is a multiple of four
     * do the printed rows read back as the rows; see `EncodeRowAsWrittenShort`.
     */
    method GetData() returns (rows: seq<string>)
      ensures rows == EncodeRowsAsWritten(data, bbW)
      ensures WellFormed(Value()) && bbW % 4 == 0 ==> DecodeRows(rows, bbW) == Success(data)
    {
      var rowWidth, extraBits := bbW / 4, bbW % 4;
      var paddingBits := if extraBits == 0 then 0 else 4 - extraBits;
      var res: seq<string> := [];
      var i := 0;
      while i < |data|
        invariant 0 <= i <= |data| && |res| == i
        invariant forall j :: 0 <= j < i ==> res[j] == EncodeRowAsWritten(data[j], bbW)
      {
        res := res + [FormatHex(rowWidth, Shl(data[i], paddingBits))];
        i := i + 1;
      }
      // Bottom-to-top storage, top-to-bottom output.
      rows := Reversed(res);
      ghost var want := EncodeRowsAsWritten(data, bbW);
      forall j | 0 <= j < |rows| ensures rows[j] == want[j] {
        assert rows[j] == res[|data| - 1 - j];
      }
      if WellFormed(Value()) && bbW % 4 == 0 {
        PrintedRowsRoundTrip(Value());
      }
    }

    /** `get_bounding_box`: (bbX, bbY, bbW, bbH). */
    function GetBoundingBox(): (b: Box)
      reads this
      ensures b.x == bbX && b.y == bbY && b.w == bbW && b.h == bbH
    {
      Box(bbX, bbY, bbW, bbH)
    }

    /**
     * `merge_glyph`: draw `other` onto this glyph with its origin at (atX, atY).
     * Every new row is computed before any field is assigned, so `other` may
     * be this glyph itself. Where either glyph lacks a row its box calls for,
     * the loop raises IndexError before any field is assigned.
     */
    method MergeGlyph(other: Glyph, atX: int, atY: int) returns (err: Option<GlyphError>)
      modifies this
      ensures err.None? <==> Shaped(old(Value())) && Shaped(old(other.Value()))
      ensures err.Some? ==> err.value == MissingRow && unchanged(this)
      ensures err.None? ==> Value() == Merged(old(Value()), old(other.Value()), atX, atY)
    {
      if !Shaped(Value()) || !Shaped(other.Value()) {
        return Some(MissingRow);
      }
      err := None;
      var m := MergeBitmaps(Value(), other.Value(), atX, atY);
      bbX, bbY, bbW, bbH, advance, data := m.bbX, m.bbY, m.bbW, m.bbH, m.advance, m.data;
    }

    /**
     * `__str__`: one text line per y from the top of the window down, one
     * character per x, the window being the box stretched to hold the origin.
     * A glyph lacking a row its box calls for raises IndexError.
     */
    method ToString() returns (r: Result<string, GlyphError>)
      ensures r.Success? <==> Shaped(Value())
      ensures r.Success? ==> r.value == Join(RenderLines(Value()), '\n')
      ensures r.Failure? ==> r.error == MissingRow
    {
      if !Shaped(Value()) {
        return Failure(MissingRow);
      }
      ghost var g := Value();
      var minX := Min(0, bbX);
      var maxX := Max(0, bbX + bbW - 1);
      var minY := Min(0, bbY);
      var maxY := Max(0, bbY + bbH - 1);
      var res: seq<string> := [];
      var y := maxY;
      while y >= minY
        invariant minY - 1 <= y <= maxY && |res| == maxY - y
        invariant forall k :: 0 <= k < |res| ==> res[k] == RenderLine(g, maxY - k)
      {
        var dataRow: nat := 0;
        if bbY <= y < bbY + bbH {
          dataRow := data[y - bbY];
        }
        var line: string := [];
        var x := minX;
        while x <= maxX
          invariant minX <= x <= maxX + 1 && |line| == x - minX
          invariant forall j :: 0 <= j < |line| ==> line[j] == Cell(g, minX + j, y)
        {
          var bitNumber := bbW - (x - bbX) - 1;
          if bbX <= x < bbX + bbW && !(bbY <= y < bbY + bbH) {
            BitZero(bitNumber);
          }
          if bbX <= x < bbX + bbW && Bit(dataRow, bitNumber) {
            line := line + ['#'];
          } else {
            line := line + [PaddingChar(x, y)];
          }
          x := x + 1;
        }
        assert line == RenderLine(g, y);
        res := res + [line];
        y := y - 1;
      }
      assert res == RenderLines(g);
      r := Success(Join(res, '\n'));
    }
  }

  /** `list.reverse()`, as a new sequence. */
  method Reversed<T>(s: seq<T>) returns (r: seq<T>)
    ensures |r| == |s| && forall j :: 0 <= j < |s| ==> r[j] == s[|s| - 1 - j]
  {
    r := [];
    var k := |s|;
    while k > 0
      invariant 0 <= k <= |s| && |r| == |s| - k
      invariant forall j :: 0 <= j < |r| ==> r[j] == s[|s| - 1 - j]
    {
      k := k - 1;
      r := r + [s[k]];
    }
  }

  /**
   * The range of a Python 2 `int` on a 64-bit platform (`sys.maxint`);
   * `int()` of a longer decimal yields a `long`, which is not an `int`.
   */
  const MaxInt: int := 0x7FFF_FFFF_FFFF_FFFF
  const MinInt: int := -0x8000_0000_0000_0000

  /** `isinstance(n, int)` for an integer value `n`. */
  predicate IsMachineInt(n: int)
  {
    MinInt <= n <= MaxInt
  }

  class Font {
    var properties: map<string, PropValue>
    var comments: seq<string>
    var glyphs: seq<Glyph>
    var glyphsByCodepoint: map<int, Glyph>

    /** The codepoint index holds only codepoints >= 0, each naming a glyph of the list. */
    ghost predicate Valid()
      reads this
    {
      forall cp :: cp in glyphsByCodepoint ==> cp >= 0 && glyphsByCodepoint[cp] in glyphs
    }

    /** The bitmaps the codepoint index leads to. */
    ghost function Bitmaps(): map<int, Bitmap>
      reads this, glyphs
      requires Valid()
    {
      map cp | cp in glyphsByCodepoint :: glyphsByCodepoint[cp].Value()
    }

    /** `Font(name, ptSize, xdpi, ydpi)`: the four standard properties, no glyphs, no comments. */
    constructor (name: string, ptSize: PropValue, xdpi: int, ydpi: int)
      ensures properties == map["FACE_NAME" := Str(name), "POINT_SIZE" := ptSize,
                                "RESOLUTION_X" := Int(xdpi), "RESOLUTION_Y" := Int(ydpi)]
      ensures glyphs == [] && glyphsByCodepoint == map[] && comments == []
      ensures Valid()
    {
      properties := map["FACE_NAME" := Str(name), "POINT_SIZE" := ptSize,
                        "RESOLUTION_X" := Int(xdpi), "RESOLUTION_Y" := Int(ydpi)];
      glyphs := [];
      glyphsByCodepoint := map[];
      comments := [];
    }

    /** `add_comment`: the comment's lines, split at '\n', appended in order. */
    method AddComment(comment: string)
      modifies this
      ensures comments == old(comments) + SplitOn(comment, '\n')
      ensures Join(comments[|old(comments)|..], '\n') == comment
      ensures properties == old(properties) && glyphs == old(glyphs) && glyphsByCodepoint == old(glyphsByCodepoint)
    {
      var lines := SplitOn(comment, '\n');
      SplitOnSpec(comment, '\n');
      comments := comments + lines;
      assert comments[|old(comments)|..] == lines;
    }

    /** `font[name] = value` for a property name. */
    method SetProperty(name: string, value: PropValue)
      modifies this
      ensures properties == old(properties)[name := value]
      ensures comments == old(comments) && glyphs == old(glyphs) && glyphsByCodepoint == old(glyphsByCodepoint)
    {
      properties := properties[name := value];
    }

    /** `font[name]` for a property name: the value, or None where Python raises KeyError. */
    function GetProperty(name: string): (r: Option<PropValue>)
      reads this
      ensures r.Some? <==> HasProperty(name)
      ensures r.Some? ==> r.value == properties[name]
    {
      if name in properties then Some(properties[name]) else None
    }

    /** `name in font` for a property name. */
    predicate HasProperty(name: string)
      reads this
    {
      name in properties
    }

    /**
     * `font[codepoint]`: the indexed glyph when the codepoint is an `int`;
     * None where Python raises KeyError, and for a `long`, which
     * `__getitem__` passes over and so returns None.
     */
    function GetGlyph(cp: int): (r: Option<Glyph>)
      reads this
      ensures r.Some? <==> HasCodepoint(cp)
      ensures r.Some? ==> r.value == glyphsByCodepoint[cp]
    {
      if IsMachineInt(cp) && cp in glyphsByCodepoint then Some(glyphsByCodepoint[cp]) else None
    }

    /** `codepoint in font`: only an `int` is looked up in the index; for a `long` it is False. */
    predicate HasCodepoint(cp: int)
      reads this
    {
      IsMachineInt(cp) && cp in glyphsByCodepoint
    }

    /**
     * A codepoint up to `sys.maxint` is in the font exactly when it is indexed;
     * one above it (a `long`, as ENCODING gives for a large value) never is,
     * even when `new_glyph_from_data` indexed a glyph under it.
     */
    lemma CodepointLookup(cp: int)
      ensures 0 <= cp <= MaxInt ==> (HasCodepoint(cp) <==> cp in glyphsByCodepoint)
      ensures 0 <= cp <= MaxInt && cp in glyphsByCodepoint ==> GetGlyph(cp) == Some(glyphsByCodepoint[cp])
      ensures cp > MaxInt ==> !HasCodepoint(cp) && GetGlyph(cp) == None
    {
    }

    /**
     * `new_glyph_from_data`: build the glyph (a row that does not read aborts
     * with nothing changed), append it to the list, and index it under a
     * codepoint >= 0 unless that codepoint is taken, which raises GlyphExists
     * with the glyph already appended.
     */
    method NewGlyphFromData(name: string, data: Option<seq<string>>, bbX: int, bbY: int, bbW: int, bbH: int,
                            advance: int, codepoint: Option<int>) returns (r: Result<Glyph, GlyphError>)
      requires Valid()
      modifies this
      ensures Valid()
      ensures properties == old(properties) && comments == old(comments)
      ensures data.Some? && DecodeRows(data.value, bbW).Failure? ==>
                r == Failure(BadRow(DecodeRows(data.value, bbW).error)) &&
                glyphs == old(glyphs) && glyphsByCodepoint == old(glyphsByCodepoint)
      ensures (data.None? || DecodeRows(data.value, bbW).Success?) ==>
                |glyphs| == |old(glyphs)| + 1 && glyphs[..|old(glyphs)|] == old(glyphs) &&
                fresh(glyphs[|old(glyphs)|]) &&
                glyphs[|old(glyphs)|].name == name &&
                glyphs[|old(glyphs)|].codepoint == (if codepoint.Some? then codepoint.value else -1) &&
                glyphs[|old(glyphs)|].Value() ==
                  Bitmap(bbX, bbY, bbW, bbH, advance, if data.Some? then DecodeRows(data.value, bbW).value else [])
      ensures (data.None? || DecodeRows(data.value, bbW).Success?) ==>
                if codepoint.Some? && codepoint.value >= 0 && codepoint.value in old(glyphsByCodepoint) then
                  r == Failure(GlyphExists(codepoint.value)) && glyphsByCodepoint == old(glyphsByCodepoint)
                else
                  r == Success(glyphs[|old(glyphs)|]) &&
                  glyphsByCodepoint ==
                    if codepoint.Some? && codepoint.value >= 0
                    then old(glyphsByCodepoint)[codepoint.value := r.value]
                    else old(glyphsByCodepoint)
    {
      var g := new Glyph(name, bbX, bbY, bbW, bbH, advance, codepoint);
      if data.Some? {
        var err := g.SetData(data.value);
        if err.Some? {
          return Failure(BadRow(err.value));
        }
      }
      glyphs := glyphs + [g];
      if codepoint.Some? && codepoint.value >= 0 {
        if codepoint.value in glyphsByCodepoint {
          return Failure(GlyphExists(codepoint.value));
        } else {
          glyphsByCodepoint := glyphsByCodepoint[codepoint.value := g];
        }
      }
      return Success(g);
    }
  }

  /** The hex lines "4", "8" of a 2-pixel-wide glyph hold the rows 2 (bottom) and 1 (top). */
  lemma ExampleRowsRead()
    ensures DecodeRows(["4", "8"], 2) == Success([2, 1])
  {
    ParseRowOf("4", 2, 4);
    ParseRowOf("8", 2, 8);
    assert Shr(4, 2) == 1 && Shr(8, 2) == 2;
    DecodeRowsOf(["4", "8"], 2, [2, 1]);
  }

  /** The 4x4 diagonal prints as "1", "2", "4", "8", top row first. */
  lemma ExampleRowsPrinted()
    ensures EncodeRowsAsWritten([8, 4, 2, 1], 4) == ["1", "2", "4", "8"]
  {
    assert EncodeRowAsWritten(8, 4) == "8" && EncodeRowAsWritten(4, 4) == "4";
    assert EncodeRowAsWritten(2, 4) == "2" && EncodeRowAsWritten(1, 4) == "1";
  }

  /**
   * A glyph drawn onto itself: the 2x2 glyph with rows "4", "8" and advance 3,
   * merged with itself at (2, 2), prints as "1", "2", "4", "8" in the box
   * (0, 0, 4, 4) with advance 5.
   */
  method SelfMergeExample() returns (rows: seq<string>, box: Box, advance: int)
    ensures rows == ["1", "2", "4", "8"] && box == Box(0, 0, 4, 4) && advance == 5
  {
    var f := new Font("TestFont", Int(12), 100, 100);
    ExampleRowsRead();
    var r := f.NewGlyphFromData("TestGlyph", Some(["4", "8"]), 0, 0, 2, 2, 3, Some(1));
    var g := r.value;
    MergeSelfExample(g.Value());
    var err := g.MergeGlyph(g, 2, 2);
    rows := g.GetData();
    ExampleRowsPrinted();
    box := g.GetBoundingBox();
    advance := g.advance;
  }
}
