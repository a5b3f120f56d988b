/**
 * `reader`: a BDF font read line by line from one shared line iterator.
 * What a read yields is specified by the functions `ScanGlyph`,
 * `ScanProperties`, `ScanGlyphs` and `ScanFont` over the list of lines, with
 * fonts seen as `FontValue`s; the methods, which advance a `LineIterator` and
 * update `Font` objects as the source does, are proved against them.
 */
module Reader {
  import opened Wrappers
  import opened Text
  import opened Bitmaps
  import opened Model

  /** The exception a read raises instead of returning. */
  datatype ReadError =
    | StopIteration      // `next()` on an exhausted iterator
    | AssertionFailed    // a line that must be "ENDCHAR", "ENDPROPERTIES" or "ENDFONT" is not
    | ValueError         // `int()` on a malformed field, or BBX without exactly four fields
    | IndexError         // a field that is not there
    | NoFont             // properties or glyphs before FONTBOUNDINGBOX made the font
    | GlyphFailed(error: GlyphError)  // `new_glyph_from_data` raised

  // ----- one line -----

  /** `line.strip().split(' ')`: the key is the first field, the values the rest. */
  function Fields(line: string): (r: seq<string>)
    ensures |r| >= 1
  {
    SplitOn(Strip(line), ' ')
  }

  /** `int(values[i])` */
  function IntField(values: seq<string>, i: nat): (r: Result<int, ReadError>)
    ensures r.Failure? ==> r.error == IndexError || r.error == ValueError
  {
    if i >= |values| then Failure(IndexError)
    else match ParseInt(values[i])
      case None => Failure(ValueError)
      case Some(v) => Success(v)
  }

  /** `[int(val) for val in values]`: `None` where one of them is malformed. */
  function IntFields(values: seq<string>): (r: Option<seq<int>>)
    ensures r.Some? ==> |r.value| == |values|
  {
    if values == [] then Some([])
    else
      var first, rest := ParseInt(values[0]), IntFields(values[1..]);
      if first.Some? && rest.Some? then Some([first.value] + rest.value) else None
  }

  // ----- glyphs -----

  /** The locals `_read_glyph` fills in from the lines before BITMAP. */
  datatype Header = Header(name: string, codepoint: int, bbX: int, bbY: int, bbW: int, bbH: int, advance: int)

  /** The locals before the first line: name "", codepoint -1, every number 0. */
  const NoHeader := Header("", -1, 0, 0, 0, 0, 0)

  /**
   * One header line of `_read_glyph`: STARTCHAR names the glyph, ENCODING sets
   * the codepoint, DWIDTH the advance from its first value, BBX width,
   * height, x and y in that order; every other key changes nothing.
   */
  function HeaderLine(h: Header, key: string, values: seq<string>): Result<Header, ReadError>
  {
    if key == "STARTCHAR" then Success(h.(name := Join(values, ' ')))
    else if key == "ENCODING" then
      match IntField(values, 0)
      case Failure(e) => Failure(e)
      case Success(v) => Success(h.(codepoint := v))
    else if key == "DWIDTH" then
      match IntField(values, 0)
      case Failure(e) => Failure(e)
      case Success(v) => Success(h.(advance := v))
    else if key == "BBX" then
      match IntFields(values)
      case None => Failure(ValueError)
      case Some(v) =>
        if |v| == 4 then Success(h.(bbW := v[0], bbH := v[1], bbX := v[2], bbY := v[3])) else Failure(ValueError)
    else Success(h)
  }

  /** `[line.strip() for line in lines]` */
  function StripAll(lines: seq<string>): (r: seq<string>)
    ensures |r| == |lines| && forall i :: 0 <= i < |lines| ==> r[i] == Strip(lines[i])
  {
    seq(|lines|, i requires 0 <= i < |lines| => Strip(lines[i]))
  }

  /** `range(n)` has this many elements. */
  function Count(n: int): nat
  {
    if n > 0 then n else 0
  }

  /** What `_read_glyph` reads: the header, the bitmap lines, and the index of the first line after ENDCHAR. */
  datatype GlyphScan = GlyphScan(header: Header, data: seq<string>, next: nat)

  /** The bitmap block that starts at line `start`: `bbH` stripped lines, then exactly "ENDCHAR". */
  function BitmapBlock(lines: seq<string>, start: nat, h: Header): (r: Result<GlyphScan, ReadError>)
    ensures r.Success? ==> r.value.next == start + Count(h.bbH) + 1 <= |lines|
  {
    var n := Count(h.bbH);
    if start + n >= |lines| then Failure(StopIteration)
    else if lines[start + n] != "ENDCHAR" then Failure(AssertionFailed)
    else Success(GlyphScan(h, StripAll(lines[start..start + n]), start + n + 1))
  }

  /** Line `b` is the first line from `pos` on whose key is BITMAP. */
  predicate FirstBitmapAt(lines: seq<string>, pos: nat, b: int)
  {
    pos <= b < |lines| && Fields(lines[b])[0] == "BITMAP" &&
    forall k :: pos <= k < b ==> Fields(lines[k])[0] != "BITMAP"
  }

  /**
   * `_read_glyph` from line `pos` on, with the locals so far in `h`. A glyph
   * record read without an error is header lines up to the first BITMAP
   * line, then the bitmap block after it, read with the header those lines
   * produced.
   */
  function ScanGlyph(lines: seq<string>, pos: nat, h: Header): (r: Result<GlyphScan, ReadError>)
    ensures r.Success? ==> pos < r.value.next <= |lines|
    decreases |lines| - pos
  {
    if pos >= |lines| then Failure(StopIteration)
    else
      var f := Fields(lines[pos]);
      if f[0] == "BITMAP" then BitmapBlock(lines, pos + 1, h)
      else
        match HeaderLine(h, f[0], f[1..])
        case Failure(e) => Failure(e)
        case Success(h') => ScanGlyph(lines, pos + 1, h')
  }

  // ----- fonts as values -----

  /** A glyph as the reader's caller sees it. */
  datatype GlyphValue = GlyphValue(name: string, codepoint: int, bitmap: Bitmap)

  /** A font as the reader's caller sees it: properties, comment lines, glyph list, codepoint index. */
  datatype FontValue = FontValue(properties: map<string, PropValue>, comments: seq<string>,
                                 glyphs: seq<GlyphValue>, index: map<int, GlyphValue>)

  /** The comment lines `add_comment` makes of `comments`, in order. */
  function CommentLines(comments: seq<string>): seq<string>
  {
    if comments == [] then []
    else CommentLines(comments[..|comments| - 1]) + SplitOn(comments[|comments| - 1], '\n')
  }

  /** `Font(name, pointSize, resX, resY)` followed by `add_comment` of each comment. */
  function NewFont(name: string, pointSize: PropValue, resX: int, resY: int, comments: seq<string>): FontValue
  {
    FontValue(map["FACE_NAME" := Str(name), "POINT_SIZE" := pointSize,
                  "RESOLUTION_X" := Int(resX), "RESOLUTION_Y" := Int(resY)],
              CommentLines(comments), [], map[])
  }

  /**
   * `new_glyph_from_data(name, data, bbX, bbY, bbW, bbH, advance, codepoint)`
   * on a font value: a row that does not read changes nothing; otherwise the
   * glyph is appended, then indexed under a codepoint >= 0 that is free, or
   * GlyphExists is raised with the glyph left appended.
   */
  function AddGlyphValue(f: FontValue, h: Header, data: seq<string>): (FontValue, Option<ReadError>)
  {
    match DecodeRows(data, h.bbW)
    case Failure(e) => (f, Some(GlyphFailed(BadRow(e))))
    case Success(rows) =>
      var g := GlyphValue(h.name, h.codepoint, Bitmap(h.bbX, h.bbY, h.bbW, h.bbH, h.advance, rows));
      var appended := f.(glyphs := f.glyphs + [g]);
      if h.codepoint >= 0 && h.codepoint in f.index then (appended, Some(GlyphFailed(GlyphExists(h.codepoint))))
      else if h.codepoint >= 0 then (appended.(index := f.index[h.codepoint := g]), None)
      else (appended, None)
  }

  // ----- properties -----

  /** `s.replace('""', '"')`, scanning left to right. */
  function Undouble(s: string): (r: string)
    ensures |r| <= |s|
  {
    if |s| >= 2 && s[0] == '"' && s[1] == '"' then "\"" + Undouble(s[2..])
    else if s == [] then []
    else [s[0]] + Undouble(s[1..])
  }

  /**
   * `parse_property(value)`: a value that starts with a quote is the text
   * between its first and last character with every `""` made `"`; any other
   * is `int(value)`.
   */
  function ParseProperty(value: string): Result<PropValue, ReadError>
  {
    if value == [] then Failure(IndexError)
    else if value[0] == '"' then
      Success(Str(Undouble(if |value| >= 2 then value[1..|value| - 1] else "")))
    else match ParseInt(value)
      case None => Failure(ValueError)
      case Some(v) => Success(Int(v))
  }

  /** `key, value = line.strip().split(' ', 1)` and `parse_property(value)`. */
  function PropertyLine(line: string): Result<(string, PropValue), ReadError>
  {
    match SplitOnce(Strip(line), ' ')
    case None => Failure(ValueError)
    case Some((key, value)) =>
      match ParseProperty(value)
      case Failure(e) => Failure(e)
      case Success(v) => Success((key, v))
  }

  /** `after` differs from `before` at most in its properties, and has every key `before` has. */
  predicate OnlyPropertiesGrew(before: FontValue, after: FontValue)
  {
    after.glyphs == before.glyphs && after.index == before.index && after.comments == before.comments &&
    before.properties.Keys <= after.properties.Keys
  }

  /** One `_read_property` at line `pos`: the font with the property set, and the next line. */
  function PropertyRead(lines: seq<string>, pos: nat, font: Option<FontValue>): (r: Result<(FontValue, nat), ReadError>)
    ensures r.Success? ==> r.value.1 == pos + 1 <= |lines| && font.Some? && OnlyPropertiesGrew(font.value, r.value.0)
  {
    if pos >= |lines| then Failure(StopIteration)
    else
      match PropertyLine(lines[pos])
      case Failure(e) => Failure(e)
      case Success((key, value)) =>
        if font.None? then Failure(NoFont)
        else Success((font.value.(properties := font.value.properties[key := value]), pos + 1))
  }

  /** `count` calls of `_read_property` from line `pos`: the font and the next line. */
  function ScanProperties(lines: seq<string>, pos: nat, font: Option<FontValue>, count: int)
    : (r: Result<(Option<FontValue>, nat), ReadError>)
    requires pos <= |lines|
    ensures r.Success? ==> r.value.1 == pos + Count(count) <= |lines|
    ensures r.Success? && count <= 0 ==> r.value.0 == font
    ensures r.Success? ==> (r.value.0.Some? <==> font.Some?)
    ensures r.Success? && font.Some? ==> OnlyPropertiesGrew(font.value, r.value.0.value)
    decreases count
  {
    if count <= 0 then Success((font, pos))
    else
      match PropertyRead(lines, pos, font)
      case Failure(e) => Failure(e)
      case Success((f, next)) => ScanProperties(lines, next, Some(f), count - 1)
  }

  /** One `_read_glyph` at line `pos`: the font with the glyph added, and the next line. */
  function GlyphRead(lines: seq<string>, pos: nat, font: Option<FontValue>): (r: Result<(FontValue, nat), ReadError>)
    ensures r.Success? ==> pos < r.value.1 <= |lines| && font.Some?
    ensures r.Success? ==>
              |r.value.0.glyphs| == |font.value.glyphs| + 1 &&
              r.value.0.properties == font.value.properties && r.value.0.comments == font.value.comments
  {
    match ScanGlyph(lines, pos, NoHeader)
    case Failure(e) => Failure(e)
    case Success(s) =>
      if font.None? then Failure(NoFont)
      else
        var (f, err) := AddGlyphValue(font.value, s.header, s.data);
        if err.Some? then Failure(err.value) else Success((f, s.next))
  }

  /** `count` calls of `_read_glyph` from line `pos`: the font and the next line. */
  function ScanGlyphs(lines: seq<string>, pos: nat, font: Option<FontValue>, count: int)
    : (r: Result<(Option<FontValue>, nat), ReadError>)
    requires pos <= |lines|
    ensures r.Success? ==> pos <= r.value.1 <= |lines|
    ensures r.Success? && count <= 0 ==> r.value == (font, pos)
    decreases count
  {
    if count <= 0 then Success((font, pos))
    else
      match GlyphRead(lines, pos, font)
      case Failure(e) => Failure(e)
      case Success((f, next)) => ScanGlyphs(lines, next, Some(f), count - 1)
  }

  // ----- the font -----

  /** The locals of `_read_font`. */
  datatype FontScan = FontScan(name: string, pointSize: PropValue, resX: int, resY: int,
                               comments: seq<string>, font: Option<FontValue>)

  /** The locals before the first line: no name, point size 0.0, resolution 0 by 0, no comments, no font. */
  const NoFontYet := FontScan("", Real("0.0"), 0, 0, [], None)

  /** `assert iterator.next() == want` at line `pos`. */
  function Expect(lines: seq<string>, pos: nat, want: string): (r: Result<nat, ReadError>)
    ensures r.Success? ==> r.value == pos + 1 <= |lines| && lines[pos] == want
  {
    if pos >= |lines| then Failure(StopIteration)
    else if lines[pos] != want then Failure(AssertionFailed)
    else Success(pos + 1)
  }

  /** One header line of `_read_font` other than STARTPROPERTIES and CHARS. */
  function FontHeaderLine(st: FontScan, key: string, values: seq<string>): Result<FontScan, ReadError>
  {
    if key == "COMMENT" then Success(st.(comments := st.comments + [Join(values, ' ')]))
    else if key == "FONT" then Success(st.(name := Join(values, ' ')))
    else if key == "SIZE" then
      if |values| == 0 then Failure(IndexError)
      else
        match (IntField(values, 1), IntField(values, 2))
        case (Failure(e), _) => Failure(e)
        case (_, Failure(e)) => Failure(e)
        case (Success(x), Success(y)) => Success(st.(pointSize := Real(values[0]), resX := x, resY := y))
    else if key == "FONTBOUNDINGBOX" then
      Success(st.(font := Some(NewFont(st.name, st.pointSize, st.resX, st.resY, st.comments))))
    else Success(st)
  }

  /**
   * STARTPROPERTIES with `values` after its key: `int(values[0])` property
   * lines from `pos`, then the ENDPROPERTIES line; the font and the line after.
   */
  function PropertyBlock(lines: seq<string>, pos: nat, font: Option<FontValue>, values: seq<string>)
    : (r: Result<(Option<FontValue>, nat), ReadError>)
    requires pos <= |lines|
    ensures r.Success? ==> pos < r.value.1 <= |lines|
  {
    match IntField(values, 0)
    case Failure(e) => Failure(e)
    case Success(n) =>
      match ScanProperties(lines, pos, font, n)
      case Failure(e) => Failure(e)
      case Success((f, p)) =>
        match Expect(lines, p, "ENDPROPERTIES")
        case Failure(e) => Failure(e)
        case Success(q) => Success((f, q))
  }

  /** CHARS with `values` after its key: `int(values[0])` glyphs from `pos`; the font and the line after. */
  function GlyphBlock(lines: seq<string>, pos: nat, font: Option<FontValue>, values: seq<string>)
    : (r: Result<(Option<FontValue>, nat), ReadError>)
    requires pos <= |lines|
  {
    match IntField(values, 0)
    case Failure(e) => Failure(e)
    case Success(n) => ScanGlyphs(lines, pos, font, n)
  }

  /** Where one line of `_read_font` leaves it: at the next line with new locals, or out of its loop. */
  datatype FontStep = Continue(next: nat, st: FontScan) | Finished(font: Option<FontValue>, next: nat)

  /** One pass of the loop of `_read_font`, on line `pos`. */
  function FontLine(lines: seq<string>, pos: nat, st: FontScan): (r: Result<FontStep, ReadError>)
    requires pos < |lines|
    ensures r.Success? ==> pos < r.value.next <= |lines|
  {
    var f := Fields(lines[pos]);
    var key := f[0];
    if key == "STARTPROPERTIES" then
      match PropertyBlock(lines, pos + 1, st.font, f[1..])
      case Failure(e) => Failure(e)
      case Success((font, q)) => Success(Continue(q, st.(font := font)))
    else if key == "CHARS" then
      match GlyphBlock(lines, pos + 1, st.font, f[1..])
      case Failure(e) => Failure(e)
      case Success((font, p)) => Success(Finished(font, p))
    else
      match FontHeaderLine(st, key, f[1..])
      case Failure(e) => Failure(e)
      case Success(st') => Success(Continue(pos + 1, st'))
  }

  /** `_read_font` from line `pos` on, with its locals in `st`: the font, if one was made. */
  function ScanFont(lines: seq<string>, pos: nat, st: FontScan): Result<Option<FontValue>, ReadError>
    decreases |lines| - pos
  {
    if pos >= |lines| then Failure(StopIteration)
    else
      match FontLine(lines, pos, st)
      case Failure(e) => Failure(e)
      case Success(Continue(q, st')) => ScanFont(lines, q, st')
      case Success(Finished(font, p)) =>
        match Expect(lines, p, "ENDFONT")
        case Failure(e) => Failure(e)
        case Success(_) => Success(font)
  }

  /** `read_from_iterable(lines)` */
  function ReadLines(lines: seq<string>): Result<Option<FontValue>, ReadError>
  {
    ScanFont(lines, 0, NoFontYet)
  }

  // ----- what a read guarantees -----

  /**
   * A font value whose codepoint index is sound: every indexed codepoint is
   * >= 0 and leads to a listed glyph with that codepoint, every listed glyph
   * with a codepoint >= 0 is indexed, and no two listed glyphs share one.
   * Every glyph also has a row for each line of its box.
   */
  predicate Consistent(f: FontValue)
  {
    IndexSound(f) && ListedIndexed(f) && DistinctCodepoints(f) && GlyphsShaped(f)
  }

  predicate GlyphsShaped(f: FontValue)
  {
    forall i :: 0 <= i < |f.glyphs| ==> Shaped(f.glyphs[i].bitmap)
  }

  predicate IndexSound(f: FontValue)
  {
    forall cp :: cp in f.index ==> cp >= 0 && f.index[cp].codepoint == cp && f.index[cp] in f.glyphs
  }

  predicate ListedIndexed(f: FontValue)
  {
    forall i :: 0 <= i < |f.glyphs| && f.glyphs[i].codepoint >= 0 ==> f.glyphs[i].codepoint in f.index
  }

  predicate DistinctCodepoints(f: FontValue)
  {
    forall i, j :: 0 <= i < j < |f.glyphs| && f.glyphs[i].codepoint >= 0 ==> f.glyphs[i].codepoint != f.glyphs[j].codepoint
  }

  /** Adding a glyph without an error keeps the index sound and appends exactly that glyph. */
  lemma AddGlyphConsistent(f: FontValue, h: Header, data: seq<string>)
    requires Consistent(f) && h.bbH <= |data|
    requires AddGlyphValue(f, h, data).1.None?
    ensures var f' := AddGlyphValue(f, h, data).0;
      Consistent(f') && |f'.glyphs| == |f.glyphs| + 1 && f'.glyphs[..|f.glyphs|] == f.glyphs &&
      f'.glyphs[|f.glyphs|].codepoint == h.codepoint && f'.properties == f.properties && f'.comments == f.comments
  {
    var rows := DecodeRows(data, h.bbW).value;
    DecodeRowsSpec(data, h.bbW);
    var g := GlyphValue(h.name, h.codepoint, Bitmap(h.bbX, h.bbY, h.bbW, h.bbH, h.advance, rows));
    var f' := AddGlyphValue(f, h, data).0;
    var n := |f.glyphs|;
    assert f'.glyphs == f.glyphs + [g];
    assert f'.glyphs[..n] == f.glyphs;
    assert GlyphsShaped(f');
    assert IndexSound(f');
    assert ListedIndexed(f');
    forall i, j | 0 <= i < j < |f'.glyphs| && f'.glyphs[i].codepoint >= 0
      ensures f'.glyphs[i].codepoint != f'.glyphs[j].codepoint
    {
      if j == n {
        assert f'.glyphs[i] == f.glyphs[i];
        assert f.glyphs[i].codepoint in f.index;
      } else {
        assert f'.glyphs[i] == f.glyphs[i] && f'.glyphs[j] == f.glyphs[j];
      }
    }
  }

  /** A glyph whose ENCODING is already indexed is appended, and then GlyphExists is raised. */
  lemma DuplicateEncoding(lines: seq<string>, pos: nat, f: FontValue)
    requires ScanGlyph(lines, pos, NoHeader).Success?
    requires var s := ScanGlyph(lines, pos, NoHeader).value;
      s.header.codepoint >= 0 && s.header.codepoint in f.index && DecodeRows(s.data, s.header.bbW).Success?
    ensures var s := ScanGlyph(lines, pos, NoHeader).value;
      GlyphRead(lines, pos, Some(f)) == Failure(GlyphFailed(GlyphExists(s.header.codepoint))) &&
      AddGlyphValue(f, s.header, s.data).0.glyphs == f.glyphs + [GlyphValue(s.header.name, s.header.codepoint,
        Bitmap(s.header.bbX, s.header.bbY, s.header.bbW, s.header.bbH, s.header.advance, DecodeRows(s.data, s.header.bbW).value))]
  {
  }

  /** What a successful `_read_glyph` did: scanned a glyph record and added it without an error. */
  lemma GlyphReadStep(lines: seq<string>, pos: nat, f: FontValue) returns (s: GlyphScan)
    requires GlyphRead(lines, pos, Some(f)).Success?
    ensures ScanGlyph(lines, pos, NoHeader) == Success(s)
    ensures AddGlyphValue(f, s.header, s.data).1.None?
    ensures GlyphRead(lines, pos, Some(f)).value == (AddGlyphValue(f, s.header, s.data).0, s.next)
  {
    s := ScanGlyph(lines, pos, NoHeader).value;
  }

  /** A glyph record read yields one bitmap line per line of the box it declares (none for a negative height). */
  lemma {:induction false} ScanGlyphRows(lines: seq<string>, pos: nat, h: Header)
    requires ScanGlyph(lines, pos, h).Success?
    ensures var s := ScanGlyph(lines, pos, h).value; |s.data| == Count(s.header.bbH)
    decreases |lines| - pos
  {
    var f := Fields(lines[pos]);
    if f[0] == "BITMAP" {
      BitmapBlockShape(lines, pos + 1, h);
    } else {
      ScanGlyphRows(lines, pos + 1, HeaderLine(h, f[0], f[1..]).value);
    }
  }

  /** A successful `_read_glyph` keeps a sound font sound. */
  lemma GlyphReadConsistent(lines: seq<string>, pos: nat, f: FontValue)
    requires GlyphRead(lines, pos, Some(f)).Success? && Consistent(f)
    ensures Consistent(GlyphRead(lines, pos, Some(f)).value.0)
  {
    var s := GlyphReadStep(lines, pos, f);
    ScanGlyphRows(lines, pos, NoHeader);
    AddGlyphConsistent(f, s.header, s.data);
  }

  /** `count` > 0 glyph reads are one glyph read, then `count` - 1 more. */
  lemma ScanGlyphsUnfold(lines: seq<string>, pos: nat, font: Option<FontValue>, count: int)
    requires pos <= |lines| && count > 0
    ensures GlyphRead(lines, pos, font).Failure? ==>
              ScanGlyphs(lines, pos, font, count) == Failure(GlyphRead(lines, pos, font).error)
    ensures GlyphRead(lines, pos, font).Success? ==>
              ScanGlyphs(lines, pos, font, count) ==
              ScanGlyphs(lines, GlyphRead(lines, pos, font).value.1, Some(GlyphRead(lines, pos, font).value.0), count - 1)
  {
  }

  /** `count` > 0 property reads are one property read, then `count` - 1 more. */
  lemma ScanPropertiesUnfold(lines: seq<string>, pos: nat, font: Option<FontValue>, count: int)
    requires pos <= |lines| && count > 0
    ensures PropertyRead(lines, pos, font).Failure? ==>
              ScanProperties(lines, pos, font, count) == Failure(PropertyRead(lines, pos, font).error)
    ensures PropertyRead(lines, pos, font).Success? ==>
              ScanProperties(lines, pos, font, count) ==
              ScanProperties(lines, PropertyRead(lines, pos, font).value.1, Some(PropertyRead(lines, pos, font).value.0), count - 1)
  {
  }

  /**
   * A glyph section read without an error needs a font when it is not
   * empty, adds one glyph per glyph read and changes neither properties nor
   * comments.
   */
  lemma {:induction false} ScanGlyphsGrows(lines: seq<string>, pos: nat, font: Option<FontValue>, count: int)
    requires pos <= |lines|
    ensures var r := ScanGlyphs(lines, pos, font, count);
      r.Success? ==>
        (count > 0 ==> font.Some?) &&
        (font.Some? ==>
           r.value.0.Some? &&
           |r.value.0.value.glyphs| == |font.value.glyphs| + Count(count) &&
           r.value.0.value.properties == font.value.properties && r.value.0.value.comments == font.value.comments)
    decreases count
  {
    if count > 0 {
      ScanGlyphsUnfold(lines, pos, font, count);
      var g := GlyphRead(lines, pos, font);
      if g.Success? {
        ScanGlyphsGrows(lines, g.value.1, Some(g.value.0), count - 1);
      }
    }
  }

  /** Reading glyphs into a sound font leaves it sound. */
  lemma {:induction false} ScanGlyphsConsistent(lines: seq<string>, pos: nat, f: FontValue, count: int)
    requires pos <= |lines| && Consistent(f)
    ensures var r := ScanGlyphs(lines, pos, Some(f), count); r.Success? ==> r.value.0.Some? && Consistent(r.value.0.value)
    decreases count
  {
    var r := ScanGlyphs(lines, pos, Some(f), count);
    if count > 0 && r.Success? {
      ScanGlyphsUnfold(lines, pos, Some(f), count);
      var g := GlyphRead(lines, pos, Some(f)).value;
      GlyphReadConsistent(lines, pos, f);
      ScanGlyphsConsistent(lines, g.1, g.0, count - 1);
      assert r == ScanGlyphs(lines, g.1, Some(g.0), count - 1);
    }
  }

  /** A properties section read without an error leaves `_read_font` where the next header line starts. */
  lemma PropertiesSection(lines: seq<string>, pos: nat, st: FontScan) returns (q: nat, st': FontScan)
    requires pos < |lines| && Fields(lines[pos])[0] == "STARTPROPERTIES"
    requires ScanFont(lines, pos, st).Success?
    requires st.font.Some? ==> Consistent(st.font.value)
    ensures pos < q && ScanFont(lines, pos, st) == ScanFont(lines, q, st')
    ensures st'.font.Some? ==> Consistent(st'.font.value)
  {
    var f := Fields(lines[pos]);
    var n := IntField(f[1..], 0).value;
    var (font, p) := ScanProperties(lines, pos + 1, st.font, n).value;
    if font.Some? {
      assert OnlyPropertiesGrew(st.font.value, font.value);
      assert Consistent(font.value);
    }
    q := Expect(lines, p, "ENDPROPERTIES").value;
    st' := st.(font := font);
  }

  /** The glyph section ends the read: a font it returns is sound when the font before it was. */
  lemma GlyphSection(lines: seq<string>, pos: nat, st: FontScan)
    requires pos < |lines| && Fields(lines[pos])[0] == "CHARS"
    requires st.font.Some? ==> Consistent(st.font.value)
    ensures var r := ScanFont(lines, pos, st); r.Success? && r.value.Some? ==> Consistent(r.value.value)
  {
    var f := Fields(lines[pos]);
    if IntField(f[1..], 0).Success? && st.font.Some? {
      ScanGlyphsConsistent(lines, pos + 1, st.font.value, IntField(f[1..], 0).value);
    }
  }

  /** Any other line of `_read_font` makes no font, or a sound new one. */
  lemma FontHeaderStep(lines: seq<string>, pos: nat, st: FontScan) returns (st': FontScan)
    requires pos < |lines| && Fields(lines[pos])[0] != "STARTPROPERTIES" && Fields(lines[pos])[0] != "CHARS"
    requires ScanFont(lines, pos, st).Success?
    requires st.font.Some? ==> Consistent(st.font.value)
    ensures ScanFont(lines, pos, st) == ScanFont(lines, pos + 1, st')
    ensures st'.font.Some? ==> Consistent(st'.font.value)
  {
    var f := Fields(lines[pos]);
    st' := FontHeaderLine(st, f[0], f[1..]).value;
  }

  /** Every font `_read_font` returns has a sound codepoint index, given a sound one to start from. */
  lemma {:induction false} ScanFontConsistent(lines: seq<string>, pos: nat, st: FontScan)
    requires st.font.Some? ==> Consistent(st.font.value)
    ensures var r := ScanFont(lines, pos, st); r.Success? && r.value.Some? ==> Consistent(r.value.value)
    decreases |lines| - pos
  {
    if pos < |lines| && ScanFont(lines, pos, st).Success? {
      var key := Fields(lines[pos])[0];
      if key == "STARTPROPERTIES" {
        var q, st' := PropertiesSection(lines, pos, st);
        ScanFontConsistent(lines, q, st');
      } else if key == "CHARS" {
        GlyphSection(lines, pos, st);
      } else {
        var st' := FontHeaderStep(lines, pos, st);
        ScanFontConsistent(lines, pos + 1, st');
      }
    }
  }

  /** `read_from_iterable` never returns a font whose index is unsound. */
  lemma ReadLinesConsistent(lines: seq<string>)
    ensures var r := ReadLines(lines); r.Success? && r.value.Some? ==> Consistent(r.value.value)
  {
    ScanFontConsistent(lines, 0, NoFontYet);
  }

  /**
   * The shape of a glyph record read without an error: header lines up to
   * the first BITMAP line `b`, then the bitmap block after it, read with the
   * header those lines produced.
   */
  lemma {:induction false} ScanGlyphShape(lines: seq<string>, pos: nat, h: Header) returns (b: nat)
    requires ScanGlyph(lines, pos, h).Success?
    ensures FirstBitmapAt(lines, pos, b)
    ensures BitmapBlock(lines, b + 1, ScanGlyph(lines, pos, h).value.header) == ScanGlyph(lines, pos, h)
    decreases |lines| - pos
  {
    if Fields(lines[pos])[0] == "BITMAP" {
      b := pos;
      BitmapLineStarts(lines, pos, h);
    } else {
      var h' := HeaderStep(lines, pos, h);
      b := ScanGlyphShape(lines, pos + 1, h');
      FirstBitmapBefore(lines, pos, b);
    }
  }

  /** A BITMAP line starts the bitmap block at once, with the header as it stands. */
  lemma BitmapLineStarts(lines: seq<string>, pos: nat, h: Header)
    requires pos < |lines| && Fields(lines[pos])[0] == "BITMAP"
    ensures ScanGlyph(lines, pos, h) == BitmapBlock(lines, pos + 1, h)
    ensures ScanGlyph(lines, pos, h).Success? ==> ScanGlyph(lines, pos, h).value.header == h
  {
  }

  /** Any other header line read without an error moves the scan one line on. */
  lemma HeaderStep(lines: seq<string>, pos: nat, h: Header) returns (h': Header)
    requires ScanGlyph(lines, pos, h).Success? && Fields(lines[pos])[0] != "BITMAP"
    ensures ScanGlyph(lines, pos, h) == ScanGlyph(lines, pos + 1, h')
  {
    var f := Fields(lines[pos]);
    h' := HeaderLine(h, f[0], f[1..]).value;
  }

  lemma FirstBitmapBefore(lines: seq<string>, pos: nat, b: int)
    requires pos < |lines| && Fields(lines[pos])[0] != "BITMAP" && FirstBitmapAt(lines, pos + 1, b)
    ensures FirstBitmapAt(lines, pos, b)
  {
  }

  /**
   * The bitmap block: the header's `bbH` lines (none for a negative
   * height), each stripped, then a line that is exactly "ENDCHAR".
   */
  lemma BitmapBlockShape(lines: seq<string>, start: nat, h: Header)
    requires BitmapBlock(lines, start, h).Success?
    ensures var s := BitmapBlock(lines, start, h).value;
      s.header == h && s.next == start + Count(h.bbH) + 1 &&
      |s.data| == Count(h.bbH) && (forall i :: 0 <= i < |s.data| ==> s.data[i] == Strip(lines[start + i])) &&
      lines[s.next - 1] == "ENDCHAR"
  {
  }

  /** BBX gives width, height, x offset and y offset, in that order. */
  lemma BbxOrder(h: Header, w: int, ht: int, x: int, y: int)
    ensures HeaderLine(h, "BBX", [DecimalString(w), DecimalString(ht), DecimalString(x), DecimalString(y)]) ==
            Success(h.(bbW := w, bbH := ht, bbX := x, bbY := y))
  {
    var v := [DecimalString(w), DecimalString(ht), DecimalString(x), DecimalString(y)];
    assert v == Decimals([w, ht, x, y]);
    IntFieldsOfDecimals([w, ht, x, y]);
  }

  /** `[str(n) for n in ns]` */
  function Decimals(ns: seq<int>): (r: seq<string>)
    ensures |r| == |ns|
  {
    seq(|ns|, i requires 0 <= i < |ns| => DecimalString(ns[i]))
  }

  /** Integers written in decimal read back as the same integers. */
  lemma {:induction false} IntFieldsOfDecimals(ns: seq<int>)
    ensures IntFields(Decimals(ns)) == Some(ns)
    decreases |ns|
  {
    if ns != [] {
      var d := Decimals(ns);
      ParseIntRoundTrip(ns[0]);
      assert d[1..] == Decimals(ns[1..]);
      IntFieldsOfDecimals(ns[1..]);
      assert IntFields(d) == Some([ns[0]] + ns[1..]);
      assert [ns[0]] + ns[1..] == ns;
    }
  }

  /** DWIDTH sets the advance from its first value and ignores the rest. */
  lemma DwidthFirstValue(h: Header, a: int, rest: seq<string>)
    ensures HeaderLine(h, "DWIDTH", [DecimalString(a)] + rest) == Success(h.(advance := a))
  {
    ParseIntRoundTrip(a);
  }

  /** ENCODING sets the codepoint. */
  lemma EncodingValue(h: Header, cp: int, rest: seq<string>)
    ensures HeaderLine(h, "ENCODING", [DecimalString(cp)] + rest) == Success(h.(codepoint := cp))
  {
    ParseIntRoundTrip(cp);
  }

  /** A glyph that starts at BITMAP keeps every default: no name, codepoint -1, zero box and advance, no rows. */
  lemma BitmapFirstDefaults(lines: seq<string>, pos: nat)
    requires pos + 1 < |lines| && Fields(lines[pos])[0] == "BITMAP" && lines[pos + 1] == "ENDCHAR"
    ensures ScanGlyph(lines, pos, NoHeader) == Success(GlyphScan(Header("", -1, 0, 0, 0, 0, 0), [], pos + 2))
  {
    assert StripAll(lines[pos + 1..pos + 1]) == [];
  }

  /** `sep.join(a + b)` is the two joins with a `sep` between them. */
  lemma {:induction false} JoinAppend(a: seq<string>, b: seq<string>, sep: char)
    requires a != [] && b != []
    ensures Join(a + b, sep) == Join(a, sep) + [sep] + Join(b, sep)
    decreases |a|
  {
    if |a| > 1 {
      assert (a + b)[1..] == a[1..] + b;
      JoinAppend(a[1..], b, sep);
    } else {
      assert (a + b)[1..] == b;
    }
  }

  /** The comment lines of a font, joined with newlines, are its COMMENT texts joined with newlines, in order. */
  lemma {:induction false} CommentsInOrder(comments: seq<string>)
    ensures |CommentLines(comments)| >= |comments|
    ensures comments != [] ==> Join(CommentLines(comments), '\n') == Join(comments, '\n')
    decreases |comments|
  {
    if comments != [] {
      var init, last := comments[..|comments| - 1], comments[|comments| - 1];
      CommentsInOrder(init);
      SplitOnSpec(last, '\n');
      assert comments == init + [last];
      assert CommentLines(comments) == CommentLines(init) + SplitOn(last, '\n');
      if init == [] {
        assert CommentLines(comments) == SplitOn(last, '\n');
      } else {
        JoinAppend(CommentLines(init), SplitOn(last, '\n'), '\n');
        JoinAppend(init, [last], '\n');
      }
    }
  }

  /** A property line is split at its first space: the key has none, the value may hold more. */
  lemma PropertySplit(key: string, value: string)
    requires key != [] && ' ' !in key && !IsSpace(key[0])
    requires value != [] && !IsSpace(value[|value| - 1])
    ensures PropertyLine(key + " " + value) ==
      match ParseProperty(value)
      case Failure(e) => Failure(e)
      case Success(v) => Success((key, v))
  {
    var line := key + " " + value;
    assert line[0] == key[0] && line[|line| - 1] == value[|value| - 1];
    StripTrimmed(line);
    SplitOnceFirst(key, value, ' ');
  }

  /** `split(sep, 1)` of `a + sep + b` with no `sep` in `a` gives `a` and `b`. */
  lemma SplitOnceFirst(a: string, b: string, sep: char)
    requires sep !in a
    ensures SplitOnce(a + [sep] + b, sep) == Some((a, b))
  {
    var s := a + [sep] + b;
    assert s[|a|] == sep;
    var i := IndexOf(s, sep);
    assert s[..|a|] == a;
    assert s[i + 1..] == b;
  }

  /** An integer property value reads back as that integer. */
  lemma IntPropertyValue(n: int)
    ensures ParseProperty(DecimalString(n)) == Success(Int(n))
  {
    ParseIntRoundTrip(n);
    var s := DecimalString(n);
    assert s[0] == '-' || IsDigit(s[0]);
  }

  /** A quoted property value is the text between the quotes with every `""` made `"`. */
  lemma QuotedPropertyValue(t: string)
    ensures ParseProperty("\"" + t + "\"") == Success(Str(Undouble(t)))
  {
    var q := "\"" + t + "\"";
    assert q[1..|q| - 1] == t;
  }

  // ----- the reader itself -----

  /** `iter(lines)`: the lines, and how many of them `next()` has handed out. */
  class LineIterator {
    const lines: seq<string>
    var pos: nat

    constructor (lines: seq<string>)
      ensures this.lines == lines && pos == 0
    {
      this.lines := lines;
      pos := 0;
    }

    /** `next()`: the next line, or None where Python raises StopIteration. */
    method Next() returns (line: Option<string>)
      modifies this
      ensures old(pos) < |lines| ==> line == Some(lines[old(pos)]) && pos == old(pos) + 1
      ensures old(pos) >= |lines| ==> line.None? && pos == old(pos)
    {
      if pos < |lines| {
        line := Some(lines[pos]);
        pos := pos + 1;
      } else {
        line := None;
      }
    }
  }

  /** A glyph object as a value. */
  ghost function GlyphValueOf(g: Glyph): GlyphValue
    reads g
  {
    GlyphValue(g.name, g.codepoint, g.Value())
  }

  /** The values of a list of glyph objects, in order. */
  ghost function GlyphValues(gs: seq<Glyph>): seq<GlyphValue>
    reads gs
    decreases |gs|
  {
    if gs == [] then [] else GlyphValues(gs[..|gs| - 1]) + [GlyphValueOf(gs[|gs| - 1])]
  }

  /** The values of a codepoint index of glyph objects. */
  ghost function IndexValues(m: map<int, Glyph>): map<int, GlyphValue>
    reads m.Values
  {
    map cp | cp in m :: GlyphValueOf(m[cp])
  }

  /** Appending a glyph object appends its value. */
  lemma GlyphValuesAppend(gs: seq<Glyph>, g: Glyph)
    ensures GlyphValues(gs + [g]) == GlyphValues(gs) + [GlyphValueOf(g)]
  {
    assert (gs + [g])[..|gs|] == gs;
  }

  /** Indexing a glyph object under a codepoint indexes its value there. */
  lemma IndexValuesUpdate(m: map<int, Glyph>, cp: int, g: Glyph)
    ensures IndexValues(m[cp := g]) == IndexValues(m)[cp := GlyphValueOf(g)]
  {
  }

  /** Glyph objects the heap change left alone keep their values. */
  twostate lemma GlyphValuesKept(gs: seq<Glyph>)
    requires forall g :: g in gs ==> old(allocated(g)) && unchanged(g)
    ensures GlyphValues(gs) == old(GlyphValues(gs))
    decreases |gs|
  {
    if gs != [] {
      var init, last := gs[..|gs| - 1], gs[|gs| - 1];
      assert forall g :: g in init ==> g in gs;
      GlyphValuesKept(init);
      assert last in gs;
    }
  }

  /** An index whose glyph objects the heap change left alone keeps its values. */
  twostate lemma IndexValuesKept(m: map<int, Glyph>)
    requires forall g :: g in m.Values ==> old(allocated(g)) && unchanged(g)
    ensures IndexValues(m) == old(IndexValues(m))
  {
  }

  /** `font` holds exactly what the value `fv` describes. */
  ghost predicate Represents(font: Font, fv: FontValue)
    reads font, font.glyphs, font.glyphsByCodepoint.Values
  {
    font.Valid() &&
    font.properties == fv.properties && font.comments == fv.comments &&
    GlyphValues(font.glyphs) == fv.glyphs && IndexValues(font.glyphsByCodepoint) == fv.index
  }

  /** `font` is None exactly when `fv` is, and otherwise holds what `fv` describes. */
  ghost predicate Holds(font: Font?, fv: Option<FontValue>)
    reads font, if font == null then {} else set g | g in font.glyphs, if font == null then {} else font.glyphsByCodepoint.Values
  {
    (font == null <==> fv.None?) && (font != null ==> Represents(font, fv.value))
  }

  /** `[iterator.next().strip() for i in range(n)]`: None where a line runs out. */
  method ReadRows(it: LineIterator, n: int) returns (rows: Option<seq<string>>)
    requires it.pos <= |it.lines|
    modifies it
    ensures it.pos <= |it.lines|
    ensures rows.Some? <==> old(it.pos) + Count(n) <= |it.lines|
    ensures rows.Some? ==>
              it.pos == old(it.pos) + Count(n) &&
              rows.value == StripAll(it.lines[old(it.pos)..old(it.pos) + Count(n)])
  {
    var data: seq<string> := [];
    var i := 0;
    while i < n
      invariant 0 <= i <= Count(n) && it.pos == old(it.pos) + i <= |it.lines|
      invariant |data| == i && forall k :: 0 <= k < i ==> data[k] == Strip(it.lines[old(it.pos) + k])
    {
      var line := it.Next();
      if line.None? {
        return None;
      }
      data := data + [Strip(line.value)];
      i := i + 1;
    }
    return Some(data);
  }

  /** `_read_glyph` up to and including its ENDCHAR line. */
  method ReadGlyphLines(it: LineIterator) returns (r: Result<GlyphScan, ReadError>)
    requires it.pos <= |it.lines|
    modifies it
    ensures r == ScanGlyph(it.lines, old(it.pos), NoHeader)
    ensures r.Success? ==> it.pos == r.value.next
  {
    var name, codepoint, bbX, bbY, bbW, bbH, advance := "", -1, 0, 0, 0, 0, 0;
    var data: seq<string> := [];
    while true
      invariant it.pos <= |it.lines|
      invariant ScanGlyph(it.lines, old(it.pos), NoHeader) ==
                ScanGlyph(it.lines, it.pos, Header(name, codepoint, bbX, bbY, bbW, bbH, advance))
      decreases |it.lines| - it.pos
    {
      ghost var h := Header(name, codepoint, bbX, bbY, bbW, bbH, advance);
      var line := it.Next();
      if line.None? {
        return Failure(StopIteration);
      }
      var parts := Fields(line.value);
      var key, values := parts[0], parts[1..];
      if key == "STARTCHAR" {
        name := Join(values, ' ');
      } else if key == "ENCODING" {
        var v := IntField(values, 0);
        if v.Failure? {
          return Failure(v.error);
        }
        codepoint := v.value;
      } else if key == "DWIDTH" {
        var v := IntField(values, 0);
        if v.Failure? {
          return Failure(v.error);
        }
        advance := v.value;
      } else if key == "BBX" {
        var v := IntFields(values);
        if v.None? || |v.value| != 4 {
          return Failure(ValueError);
        }
        bbW, bbH, bbX, bbY := v.value[0], v.value[1], v.value[2], v.value[3];
      } else if key == "BITMAP" {
        var rows := ReadRows(it, bbH);
        if rows.None? {
          return Failure(StopIteration);
        }
        data := rows.value;
        break;
      }
    }
    var end := it.Next();
    if end.None? {
      return Failure(StopIteration);
    }
    if end.value != "ENDCHAR" {
      return Failure(AssertionFailed);
    }
    return Success(GlyphScan(Header(name, codepoint, bbX, bbY, bbW, bbH, advance), data, it.pos));
  }

  /** `font.new_glyph_from_data(...)` with what `_read_glyph` read, mirrored on the font's value. */
  method AddGlyph(font: Font, ghost fv: FontValue, h: Header, data: seq<string>) returns (err: Option<ReadError>)
    requires Represents(font, fv)
    modifies font
    ensures err == AddGlyphValue(fv, h, data).1
    ensures Represents(font, AddGlyphValue(fv, h, data).0)
  {
    ghost var gs, index := font.glyphs, font.glyphsByCodepoint;
    var r := font.NewGlyphFromData(h.name, Some(data), h.bbX, h.bbY, h.bbW, h.bbH, h.advance, Some(h.codepoint));
    err := if r.Failure? then Some(GlyphFailed(r.error)) else None;
    GlyphValuesKept(gs);
    IndexValuesKept(index);
    if DecodeRows(data, h.bbW).Success? {
      GlyphValuesAppend(gs, font.glyphs[|gs|]);
      if h.codepoint >= 0 && h.codepoint !in index {
        IndexValuesUpdate(index, h.codepoint, font.glyphs[|gs|]);
      }
    }
  }

  /** `_read_glyph(iterator, font)`, proved against `GlyphRead`. */
  method ReadGlyph(it: LineIterator, font: Font?, ghost fv: Option<FontValue>) returns (err: Option<ReadError>)
    requires it.pos <= |it.lines| && Holds(font, fv)
    modifies it, font
    ensures var r := GlyphRead(it.lines, old(it.pos), fv);
      (err.None? <==> r.Success?) && (r.Failure? ==> err == Some(r.error)) &&
      (r.Success? ==> it.pos == r.value.1 && Holds(font, Some(r.value.0)))
  {
    var scan := ReadGlyphLines(it);
    if scan.Failure? {
      return Some(scan.error);
    }
    if font == null {
      return Some(NoFont);
    }
    err := AddGlyph(font, fv.value, scan.value.header, scan.value.data);
  }

  /** `_read_property(iterator, font)`, proved against `PropertyRead`. */
  method ReadProperty(it: LineIterator, font: Font?, ghost fv: Option<FontValue>) returns (err: Option<ReadError>)
    requires Holds(font, fv)
    modifies it, font
    ensures var r := PropertyRead(it.lines, old(it.pos), fv);
      (err.None? <==> r.Success?) && (r.Failure? ==> err == Some(r.error)) &&
      (r.Success? ==> it.pos == r.value.1 && Holds(font, Some(r.value.0)))
  {
    var line := it.Next();
    if line.None? {
      return Some(StopIteration);
    }
    var split := SplitOnce(Strip(line.value), ' ');
    if split.None? {
      return Some(ValueError);
    }
    var (key, value) := split.value;
    var v := ParseProperty(value);
    if v.Failure? {
      return Some(v.error);
    }
    if font == null {
      return Some(NoFont);
    }
    font.SetProperty(key, v.value);
    return None;
  }

  /** The next of `left` > 0 property reads: an error ends them all, otherwise `left` - 1 remain. */
  method ReadNextProperty(it: LineIterator, font: Font?, ghost cur: Option<FontValue>, ghost left: int,
                     ghost whole: Result<(Option<FontValue>, nat), ReadError>)
    returns (err: Option<ReadError>, ghost next: Option<FontValue>)
    requires left > 0 && it.pos <= |it.lines| && Holds(font, cur)
    requires whole == ScanProperties(it.lines, it.pos, cur, left)
    modifies it, font
    ensures err.Some? ==> whole == Failure(err.value)
    ensures err.None? ==> it.pos <= |it.lines| && Holds(font, next) && PropertiesLeft(whole, it.lines, it.pos, next, left - 1)
  {
    ScanPropertiesUnfold(it.lines, it.pos, cur, left);
    ghost var r := PropertyRead(it.lines, it.pos, cur);
    err := ReadProperty(it, font, cur);
    next := if r.Success? then Some(r.value.0) else cur;
  }

  /** `whole` is what the remaining `left` property reads give from line `pos` with the font `cur`. */
  ghost predicate PropertiesLeft(whole: Result<(Option<FontValue>, nat), ReadError>, lines: seq<string>, pos: nat,
                                 cur: Option<FontValue>, left: int)
  {
    pos <= |lines| && whole == ScanProperties(lines, pos, cur, left)
  }

  /** `whole` is what the remaining `left` glyph reads give from line `pos` with the font `cur`. */
  ghost predicate GlyphsLeft(whole: Result<(Option<FontValue>, nat), ReadError>, lines: seq<string>, pos: nat,
                             cur: Option<FontValue>, left: int)
  {
    pos <= |lines| && whole == ScanGlyphs(lines, pos, cur, left)
  }

  /** `[_read_property(iterator, font) for i in range(count)]`, proved against `ScanProperties`. */
  method ReadProperties(it: LineIterator, font: Font?, ghost fv: Option<FontValue>, count: int)
    returns (err: Option<ReadError>)
    requires it.pos <= |it.lines| && Holds(font, fv)
    modifies it, font
    ensures var r := ScanProperties(it.lines, old(it.pos), fv, count);
      (err.None? <==> r.Success?) && (r.Failure? ==> err == Some(r.error)) &&
      (r.Success? ==> it.pos == r.value.1 && Holds(font, r.value.0))
  {
    ghost var whole := ScanProperties(it.lines, it.pos, fv, count);
    ghost var cur, left := fv, count;
    var i := 0;
    while i < count
      invariant left == count - i
      invariant it.pos <= |it.lines| && Holds(font, cur)
      invariant PropertiesLeft(whole, it.lines, it.pos, cur, left)
    {
      err, cur := ReadNextProperty(it, font, cur, left, whole);
      if err.Some? {
        return;
      }
      i, left := i + 1, left - 1;
    }
    assert whole == Success((cur, it.pos));
    return None;
  }

  /** The next of `left` > 0 glyph reads: an error ends them all, otherwise `left` - 1 remain. */
  method ReadNextGlyph(it: LineIterator, font: Font?, ghost cur: Option<FontValue>, ghost left: int,
                     ghost whole: Result<(Option<FontValue>, nat), ReadError>)
    returns (err: Option<ReadError>, ghost next: Option<FontValue>)
    requires left > 0 && it.pos <= |it.lines| && Holds(font, cur)
    requires whole == ScanGlyphs(it.lines, it.pos, cur, left)
    modifies it, font
    ensures err.Some? ==> whole == Failure(err.value)
    ensures err.None? ==> it.pos <= |it.lines| && Holds(font, next) && GlyphsLeft(whole, it.lines, it.pos, next, left - 1)
  {
    ScanGlyphsUnfold(it.lines, it.pos, cur, left);
    ghost var r := GlyphRead(it.lines, it.pos, cur);
    err := ReadGlyph(it, font, cur);
    next := if r.Success? then Some(r.value.0) else cur;
  }

  /** `[_read_glyph(iterator, font) for i in range(count)]`, proved against `ScanGlyphs`. */
  method ReadGlyphs(it: LineIterator, font: Font?, ghost fv: Option<FontValue>, count: int)
    returns (err: Option<ReadError>)
    requires it.pos <= |it.lines| && Holds(font, fv)
    modifies it, font
    ensures var r := ScanGlyphs(it.lines, old(it.pos), fv, count);
      (err.None? <==> r.Success?) && (r.Failure? ==> err == Some(r.error)) &&
      (r.Success? ==> it.pos == r.value.1 && Holds(font, r.value.0))
  {
    ghost var whole := ScanGlyphs(it.lines, it.pos, fv, count);
    ghost var cur, left := fv, count;
    var i := 0;
    while i < count
      invariant left == count - i
      invariant it.pos <= |it.lines| && Holds(font, cur)
      invariant GlyphsLeft(whole, it.lines, it.pos, cur, left)
    {
      err, cur := ReadNextGlyph(it, font, cur, left, whole);
      if err.Some? {
        return;
      }
      i, left := i + 1, left - 1;
    }
    assert whole == Success((cur, it.pos));
    return None;
  }

  /** `model.Font(name, pointSize, resX, resY)`, then `add_comment` of each saved comment, in order. */
  method MakeFont(name: string, pointSize: PropValue, resX: int, resY: int, comments: seq<string>) returns (font: Font)
    ensures fresh(font) && Represents(font, NewFont(name, pointSize, resX, resY, comments))
  {
    font := new Font(name, pointSize, resX, resY);
    var i := 0;
    while i < |comments|
      invariant 0 <= i <= |comments|
      invariant font.Valid() && font.glyphs == [] && font.glyphsByCodepoint == map[]
      invariant font.properties == NewFont(name, pointSize, resX, resY, comments).properties
      invariant font.comments == CommentLines(comments[..i])
    {
      font.AddComment(comments[i]);
      assert comments[..i + 1][..i] == comments[..i];
      i := i + 1;
    }
    assert comments[..|comments|] == comments;
  }

  /** The STARTPROPERTIES branch of `_read_font`, proved against `PropertyBlock`. */
  method ReadPropertyBlock(it: LineIterator, font: Font?, ghost fv: Option<FontValue>, values: seq<string>)
    returns (err: Option<ReadError>, ghost next: Option<FontValue>)
    requires it.pos <= |it.lines| && Holds(font, fv)
    modifies it, font
    ensures var r := PropertyBlock(it.lines, old(it.pos), fv, values);
      (err.None? <==> r.Success?) && (r.Failure? ==> err == Some(r.error)) &&
      (r.Success? ==> it.pos == r.value.1 && next == r.value.0 && Holds(font, next))
  {
    next := fv;
    var propertyCount := IntField(values, 0);
    if propertyCount.Failure? {
      return Some(propertyCount.error), next;
    }
    ghost var start := it.pos;
    err := ReadProperties(it, font, fv, propertyCount.value);
    if err.Some? {
      return;
    }
    next := ScanProperties(it.lines, start, fv, propertyCount.value).value.0;
    var end := it.Next();
    if end.None? {
      return Some(StopIteration), next;
    }
    if end.value != "ENDPROPERTIES" {
      return Some(AssertionFailed), next;
    }
  }

  /** The CHARS branch of `_read_font` up to its `break`, proved against `GlyphBlock`. */
  method ReadGlyphBlock(it: LineIterator, font: Font?, ghost fv: Option<FontValue>, values: seq<string>)
    returns (err: Option<ReadError>, ghost next: Option<FontValue>)
    requires it.pos <= |it.lines| && Holds(font, fv)
    modifies it, font
    ensures var r := GlyphBlock(it.lines, old(it.pos), fv, values);
      (err.None? <==> r.Success?) && (r.Failure? ==> err == Some(r.error)) &&
      (r.Success? ==> it.pos == r.value.1 && next == r.value.0 && Holds(font, next))
  {
    next := fv;
    var glyphCount := IntField(values, 0);
    if glyphCount.Failure? {
      return Some(glyphCount.error), next;
    }
    ghost var start := it.pos;
    err := ReadGlyphs(it, font, fv, glyphCount.value);
    if err.None? {
      next := ScanGlyphs(it.lines, start, fv, glyphCount.value).value.0;
    }
  }

  /**
   * A header line of `_read_font` other than STARTPROPERTIES and CHARS,
   * proved against `FontHeaderLine` on the locals `name` to `comments` and `fv`.
   */
  method ReadHeaderLine(name: string, pointSize: PropValue, resX: int, resY: int, comments: seq<string>,
                        font: Font?, ghost fv: Option<FontValue>, key: string, values: seq<string>)
    returns (err: Option<ReadError>, name': string, pointSize': PropValue, resX': int, resY': int,
             comments': seq<string>, font': Font?, ghost fv': Option<FontValue>)
    requires Holds(font, fv)
    ensures var h := FontHeaderLine(FontScan(name, pointSize, resX, resY, comments, fv), key, values);
      (err.None? <==> h.Success?) && (h.Failure? ==> err == Some(h.error)) &&
      (h.Success? ==>
         h.value == FontScan(name', pointSize', resX', resY', comments', fv') &&
         Holds(font', fv') && (font' == font || fresh(font')))
  {
    err, name', pointSize', resX', resY', comments', font', fv' := None, name, pointSize, resX, resY, comments, font, fv;
    if key == "COMMENT" {
      comments' := comments + [Join(values, ' ')];
    } else if key == "FONT" {
      name' := Join(values, ' ');
    } else if key == "SIZE" {
      if |values| == 0 {
        err := Some(IndexError);
        return;
      }
      var x := IntField(values, 1);
      if x.Failure? {
        err := Some(x.error);
        return;
      }
      var y := IntField(values, 2);
      if y.Failure? {
        err := Some(y.error);
        return;
      }
      pointSize', resX', resY' := Real(values[0]), x.value, y.value;
    } else if key == "FONTBOUNDINGBOX" {
      font' := MakeFont(name, pointSize, resX, resY, comments);
      fv' := Some(NewFont(name, pointSize, resX, resY, comments));
    }
  }

  /** One pass of the loop of `_read_font`, proved against `FontLine`; `done` where it breaks out. */
  method ReadFontLine(it: LineIterator, name: string, pointSize: PropValue, resX: int, resY: int,
                      comments: seq<string>, font: Font?, ghost fv: Option<FontValue>)
    returns (err: Option<ReadError>, done: bool, name': string, pointSize': PropValue, resX': int, resY': int,
             comments': seq<string>, font': Font?, ghost fv': Option<FontValue>)
    requires it.pos <= |it.lines| && Holds(font, fv)
    modifies it, font
    ensures old(it.pos) >= |it.lines| ==> err == Some(StopIteration)
    ensures old(it.pos) < |it.lines| ==>
      var r := FontLine(it.lines, old(it.pos), FontScan(name, pointSize, resX, resY, comments, fv));
      (err.None? <==> r.Success?) && (r.Failure? ==> err == Some(r.error)) &&
      (r.Success? ==>
         it.pos == r.value.next && (done <==> r.value.Finished?) &&
         (r.value.Continue? ==> r.value.st == FontScan(name', pointSize', resX', resY', comments', fv')) &&
         (r.value.Finished? ==> r.value.font == fv') &&
         Holds(font', fv') && (font' == font || fresh(font')))
  {
    done, name', pointSize', resX', resY', comments', font', fv' := false, name, pointSize, resX, resY, comments, font, fv;
    var line := it.Next();
    if line.None? {
      return Some(StopIteration), done, name', pointSize', resX', resY', comments', font', fv';
    }
    var parts := Fields(line.value);
    var key, values := parts[0], parts[1..];
    if key == "STARTPROPERTIES" {
      err, fv' := ReadPropertyBlock(it, font, fv, values);
    } else if key == "CHARS" {
      err, fv' := ReadGlyphBlock(it, font, fv, values);
      done := true;
    } else {
      err, name', pointSize', resX', resY', comments', font', fv' :=
        ReadHeaderLine(name, pointSize, resX, resY, comments, font, fv, key, values);
    }
  }

  /** `_read_font(iterator)`, proved against `ScanFont`. */
  method ReadFont(it: LineIterator) returns (r: Result<Font?, ReadError>)
    requires it.pos <= |it.lines|
    modifies it
    ensures var s := ScanFont(it.lines, old(it.pos), NoFontYet);
      (r.Success? <==> s.Success?) && (s.Failure? ==> r.error == s.error) &&
      (s.Success? ==> Holds(r.value, s.value) && (r.value != null ==> fresh(r.value)))
  {
    var name, pointSize, resX, resY := "", Real("0.0"), 0, 0;
    var comments: seq<string> := [];
    var font: Font? := null;
    ghost var fv: Option<FontValue> := None;
    ghost var whole := ScanFont(it.lines, it.pos, NoFontYet);
    while true
      invariant it.pos <= |it.lines|
      invariant Holds(font, fv) && (font != null ==> fresh(font))
      invariant whole == ScanFont(it.lines, it.pos, FontScan(name, pointSize, resX, resY, comments, fv))
      decreases |it.lines| - it.pos
    {
      var err, done;
      err, done, name, pointSize, resX, resY, comments, font, fv :=
        ReadFontLine(it, name, pointSize, resX, resY, comments, font, fv);
      if err.Some? {
        return Failure(err.value);
      }
      if done {
        break;
      }
    }
    var end := it.Next();
    if end.None? {
      return Failure(StopIteration);
    }
    if end.value != "ENDFONT" {
      return Failure(AssertionFailed);
    }
    return Success(font);
  }

  /** `read_from_iterable(lines)`: every font it returns has a sound codepoint index. */
  method ReadFromIterable(lines: seq<string>) returns (r: Result<Font?, ReadError>)
    ensures var s := ReadLines(lines);
      (r.Success? <==> s.Success?) && (s.Failure? ==> r.error == s.error) &&
      (s.Success? ==> Holds(r.value, s.value) && (s.value.Some? ==> Consistent(s.value.value)))
  {
    var it := new LineIterator(lines);
    r := ReadFont(it);
    ReadLinesConsistent(lines);
  }
}
