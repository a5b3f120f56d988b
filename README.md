# bdflib in Dafny

A model of the core of bdflib, a Python 2 library for BDF bitmap fonts,
with proofs of what its operations guarantee.

- **Glyphs and fonts** (`model.dfy`, `bitmaps.dfy`, `bits.dfy`). A `Glyph` is a class holding:
  - a bounding box;
  - an advance;
  - integer bit-rows, stored bottom-to-top, with the leftmost pixel in the most significant bit.

  `_set_data` reads hex rows. `get_data` prints them. `merge_glyph` ORs one glyph onto another at an offset. `__str__` draws the glyph as text. Each is a method proved against a value-level specification in `Bitmaps` (`Merged`, `DecodeRows`, `EncodeRowsAsWritten`, `RenderLines`). The properties are proved about that specification:
  - box union and advance;
  - pixel union;
  - rows keep their width;
  - the hex round trip, which `get_data` keeps only when the width is a multiple of four (see Findings);
  - drawing shows exactly the inked pixels.

  `merge_glyph` and `__str__` raise IndexError exactly when a glyph has fewer rows than its box has lines.

  A `Font` holds the properties, the comments, the glyph list and the codepoint index. `new_glyph_from_data` appends the glyph before it checks for a duplicate codepoint.
- **Glyph synthesis** (`decompositions.dfy`, `glyph_combining.dfy`).
  - The per-codepoint step of `build_unicode_decompositions` covers three things:
    - the tag filter (`<compat>` and `<noBreak>` only);
    - the soft-dotted rewrite of `i`/`j` under an accent above;
    - pairing each component with its combining class.
  - `FontFiller.add_glyph_to_font` is proved against a ghost specification. `Buildable` says when it succeeds. `Build` says what it draws. Both look only at the font's bitmaps before the call. The font only grows. The order `add_decomposable_glyphs_to_font` visits the table in does not matter.
- **Reader** (`reader.dfy`). `_read_glyph`, `_read_property`, `_read_font` and `read_from_iterable` are methods. They advance one `LineIterator` and update `Font` and `Glyph` objects as the source does. Each is proved equal to a function over the list of lines (`ScanGlyph`, `ScanProperties`, `ScanGlyphs`, `ScanFont`) that works on font values. Every font read has a sound codepoint index.
- **Writer** (`writer.dfy`). `quote_property_value` is modelled with its round trip through `parse_property`.
- **Tally** (`util.dfy`). `record` is modelled, and so is the order of the lines `show` prints.

Python exceptions become `Failure` values (`ReadError`, `GlyphError`, `RowError`), and `None`/`KeyError` lookups become `Option`. The Unicode character database is a parameter: a decomposition-mapping function and a combining-class function. A Python `int` is an unbounded Dafny `int`. The width of `int` changes behaviour in two places, both modelled with the 64-bit `sys.maxint` (`Model.IsMachineInt`): the writer's `isinstance(val, int)`, and `Font.__getitem__`/`__contains__`, which look a codepoint up only when it is an `int`, so that a glyph indexed under a `long` codepoint is neither found nor contained.

## Model

| member | source | states |
|---|---|---|
| Model.Glyph.constructor | bdflib/model.py:15-33 | The glyph has the given name and box, no rows yet, and codepoint -1 when none is given. |
| Model.Glyph.SetData | bdflib/model.py:75-82 | The new rows are the lines decoded and reversed, so `data[i]` is the line at y = bbY + i. On the first line `int(row, 16)` rejects, or the first that is too short for bbW, it stops with that line's error. Box, name and codepoint are unchanged. |
| Model.Glyph.GetData | bdflib/model.py:84-103 | Returns the rows as the source prints them, at `bbW // 4` columns, top row first. When bbW is a multiple of four, reading them back with `_set_data` gives a well-formed glyph's rows again. |
| Model.Glyph.GetBoundingBox | bdflib/model.py:105-106 | The box is (bbX, bbY, bbW, bbH). |
| Model.MergeBitmaps | bdflib/model.py:109-143 | The loop computing the new box, advance and rows yields `Merged` of the two operands. |
| Model.Glyph.MergeGlyph | bdflib/model.py:108-151 | IndexError (`MissingRow`), with the glyph unchanged, exactly when either glyph has fewer rows than its box has lines. Otherwise the glyph's new value is `Merged` of both OLD values, even when `other` is the glyph itself. Name and codepoint are fixed at construction (`const`). |
| Model.Glyph.ToString | bdflib/model.py:35-73 | IndexError (`MissingRow`) exactly when the glyph has fewer rows than its box has lines. Otherwise the text is the lines of `RenderLines` joined with newlines. |
| Model.Reversed | bdflib/model.py:81-101 | `list.reverse()`: element j of the result is element n-1-j of the input. |
| Model.Font.constructor | bdflib/model.py:159-171 | Properties are FACE_NAME, POINT_SIZE, RESOLUTION_X and RESOLUTION_Y. There are no glyphs, index entries or comments. |
| Model.Font.AddComment | bdflib/model.py:173-175 | Appends the comment's lines split at '\n', and joining the appended lines gives the comment back. Nothing else changes. |
| Model.Font.SetProperty | bdflib/model.py:180-182 | `font[name] = value` updates exactly that property. |
| Model.Font.GetProperty | bdflib/model.py:184-186 | A value exactly when `name in font`, and then that property's value. |
| Model.Font.GetGlyph | bdflib/model.py:184-188 | A glyph exactly when `codepoint in font`, and then the indexed glyph. |
| Model.Font.CodepointLookup | bdflib/model.py:184-194 | A codepoint up to `sys.maxint` is found and contained exactly when it is indexed; one above it (a `long`) is never found nor contained, even when indexed. |
| Model.Font.NewGlyphFromData | bdflib/model.py:196-206 | If a row does not read, nothing changes. Otherwise the new glyph is appended with the decoded rows. It is indexed under a codepoint >= 0. GlyphExists is raised for an indexed codepoint, and the glyph stays appended. The index stays sound. |
| Model.SelfMergeExample | bdflib/test/test_model.py:55-65 | Glyph rows "4","8", box (0,0,2,2) and advance 3, merged with itself at (2,2), give rows "1","2","4","8", box (0,0,4,4) and advance 5. |
| Model.ExampleRowsRead | bdflib/model.py:75-82 | Lines "4","8" of a 2-pixel glyph decode to rows 2 (bottom) and 1 (top). |
| Model.ExampleRowsPrinted | bdflib/model.py:84-103 | As `get_data` prints it, the 4x4 diagonal is "1","2","4","8". |
| Bitmaps.Merged | bdflib/model.py:108-151 | The merge of two glyphs that have a row for every line of their boxes has a row for every line of its own box. |
| Bitmaps.MergedFields | bdflib/model.py:110-143 | The merged box is min/max of the two boxes. The advance is max(advance, atX + other.advance). The rows are the merged lines, none when the new height is not positive, as `range` gives. |
| Bitmaps.MergeBox | bdflib/model.py:110-115 | The merged box covers both boxes, the source shifted by (atX, atY), and is the least box that does. |
| Bitmaps.MergeAdvance | bdflib/model.py:116 | The advance reaches both pen positions and is one of them. |
| Bitmaps.MergedRows | bdflib/model.py:119-143 | One merged row per line. |
| Bitmaps.MergedRowsAt | bdflib/model.py:119-143 | Row k of the merge is the merged line at y0 + k. |
| Bitmaps.MergedRowsStep | bdflib/model.py:120-143 | The rows are built one line at a time, bottom up. |
| Bitmaps.ShiftedRowBit | bdflib/model.py:128-140 | A row shifted so that its right edge meets the new right edge keeps its pixels at their columns. |
| Bitmaps.ShiftedRowBound | bdflib/model.py:128-140 | A shifted row fits in the new width. |
| Bitmaps.MergedRowBound | bdflib/model.py:143 | Each merged line fits in new_bbW bits. |
| Bitmaps.MergeWellFormed | bdflib/model.py:119-151 | Merging glyphs with bbH rows of bbW bits gives new_bbH rows of new_bbW bits. |
| Bitmaps.MergedRowBit | bdflib/model.py:120-143 | A bit of a merged line is set exactly when the receiver or the shifted source has that pixel. |
| Bitmaps.MergePixel | bdflib/model.py:120-143 | Pixel (x, y) is inked after the merge exactly when it was in the receiver, or when (x-atX, y-atY) was in the source. |
| Bitmaps.MergeSelfAtOrigin | bdflib/model.py:108-151 | Merging a glyph with a copy of itself at (0, 0) changes nothing. |
| Bitmaps.MergeTranslationSymmetric | bdflib/model.py:108-151 | b on a at (dx, dy) inks the same pixels as a on b at (-dx, -dy), moved back. |
| Bitmaps.MergeSelfExampleRows | bdflib/test/test_model.py:55-65 | The four merged lines of the self-merge example are 8, 4, 2 and 1. |
| Bitmaps.MergeSelfExample | bdflib/test/test_model.py:55-65 | The self-merge example yields box (0,0,4,4), advance 5 and rows [8,4,2,1] bottom-up. |
| Bitmaps.ParseRowBound | bdflib/model.py:78-79 | A row that reads keeps no more than bbW bits. |
| Bitmaps.DecodeRowsSpec | bdflib/model.py:75-82 | Decoding succeeds exactly when every line reads. Then the values are the lines' values, bottom-to-top. Otherwise the error is that of the first line that does not read. |
| Bitmaps.DecodeRowsWellFormed | bdflib/model.py:75-82 | Decoded rows are bbW-bit patterns, one per line. |
| Bitmaps.DecodeRowsOf | bdflib/model.py:75-82 | Lines that each read as the matching value decode to those values. |
| Bitmaps.DecodeRowsFails | bdflib/model.py:77-79 | The first failing line, after lines that read, gives the error. |
| Bitmaps.ParseRowOf | bdflib/model.py:78-79 | A hex line wide enough for bbW reads as its value shifted right by the padding bits. |
| Bitmaps.EncodeRowAsWrittenShort | bdflib/model.py:88-97 | Printed at floor(bbW/4) columns, a blank 9-pixel row is " 0", which `_set_data` rejects (see Findings). |
| Bitmaps.EncodeRowAsWrittenAgrees | bdflib/model.py:88-97 | For bbW a multiple of four, the corrected printing and the source's printing of a row agree. |
| Bitmaps.EncodeRowsAsWritten | bdflib/model.py:84-103 | What `get_data` returns: one row as the source prints it per stored row, top row first. |
| Bitmaps.EncodeRowsAsWrittenAgrees | bdflib/model.py:84-103 | For bbW a multiple of four, `get_data`'s rows are the corrected printing's rows. |
| Bitmaps.PrintedRowsRoundTrip | bdflib/model.py:75-103 | What `get_data` does promise: for bbW a multiple of four, `_set_data(get_data())` gives a well-formed glyph's rows back. |
| Bitmaps.EncodeRows | bdflib/model.py:84-103 | Corrected printing (the intended `get_data`, see Findings): one printed row per stored row. |
| Bitmaps.PaddedRowFits | bdflib/model.py:88-97 | Corrected printing: a bbW-bit row shifted onto a nibble boundary fits in ceil(bbW/4) hex digits. |
| Bitmaps.EncodeRowText | bdflib/model.py:88-97 | Corrected printing: a printed row reads as the padded row and is ceil(bbW/4) columns wide. |
| Bitmaps.EncodeRowWidth | bdflib/model.py:88-97 | Corrected printing, for bbW a multiple of four: a printed row is exactly bbW/4 digits. |
| Bitmaps.RowRoundTrip | bdflib/model.py:75-97 | Corrected printing: every bbW-bit row survives printing and reading. |
| Bitmaps.RowsRoundTrip | bdflib/model.py:75-103 | Corrected printing: printing the rows of any well-formed glyph and reading them back with `_set_data` gives them back. |
| Bitmaps.Cell | bdflib/model.py:57-70 | The character at (x, y) is '#' exactly on an inked pixel. |
| Bitmaps.RenderShowsPixels | bdflib/model.py:35-73 | The drawing has one line per y from the top of the window down, and one character per x. It shows '#' exactly on inked pixels and the origin and axis markers elsewhere. The window holds the origin and the whole box. |
| Decompositions.ParseCodepoints | bdflib/glyph_combining.py:65 | Succeeds exactly when every word is hex within range, and then gives each word's value in order. |
| Decompositions.WithClasses | bdflib/glyph_combining.py:77-78 | Each codepoint is paired with its own combining class, in order, same length. |
| Decompositions.NoMappingNoEntry | bdflib/glyph_combining.py:47-51 | A codepoint without a decomposition gets no entry. |
| Decompositions.TagFilter | bdflib/glyph_combining.py:10-13 | A tag other than `<compat>` or `<noBreak>` gives no entry. Those two are stripped and the rest is read. |
| Decompositions.UntaggedKept | bdflib/glyph_combining.py:53-65 | An untagged mapping is read as it stands. |
| Decompositions.SuperscriptTwoDropped | bdflib/test/test_glyph_combining.py:24 | SUPERSCRIPT TWO (`<super> 0032`) gets no entry. |
| Decompositions.EntryShape | bdflib/glyph_combining.py:64-78 | Every component is kept, in order. The base becomes dotless exactly when it is i or j, there is more than one component, and a later one has class 214 or 230. Each component's class is looked up after the rewrite. |
| Decompositions.UndotBaseShape | bdflib/glyph_combining.py:67-74 | The soft-dotted rewrite changes only the base, and only under those three conditions. |
| Decompositions.EntryNonEmpty | bdflib/glyph_combining.py:77-78 | Every entry has a component. |
| Decompositions.IWithDiaeresis | bdflib/glyph_combining.py:67-78 | U+00EF, "0069 0308", becomes dotless i (class 0) followed by U+0308 (class 230). |
| Decompositions.IWithDiaeresisEntry | bdflib/glyph_combining.py:67-78 | The same entry, from the words of the mapping. |
| Decompositions.IWithDiaeresisWords | bdflib/glyph_combining.py:47 | "0069 0308" splits into its two words. |
| Decompositions.IWithDiaeresisCodepoints | bdflib/glyph_combining.py:65 | Those words parse as U+0069 and U+0308. |
| Decompositions.CodepointsOf | bdflib/glyph_combining.py:65 | Words that each parse as a codepoint give exactly those codepoints. |
| Decompositions.TableStep | bdflib/glyph_combining.py:45-78 | Examining one more codepoint adds its entry, if any, to the table. |
| Decompositions.NoneMalformedStep | bdflib/glyph_combining.py:45-65 | No malformed mapping so far, one more well-formed one, still none. |
| Decompositions.BuildDecompositions | bdflib/glyph_combining.py:39-80 | The table holds exactly the entries of codepoints 0 to sys.maxunicode (0x10FFFF, a wide build), each non-empty. It fails exactly when some mapping is malformed, and then the first such codepoint aborts the build. |
| GlyphCombining.Composite | bdflib/glyph_combining.py:116-129 | The composed glyph has one row per line. |
| GlyphCombining.CompositeAdvance | bdflib/glyph_combining.py:123-129 | With no negative advance, the composed advance is the sum of the components' advances. |
| GlyphCombining.CompositeWellFormed | bdflib/glyph_combining.py:116-129 | Composing well-formed glyphs gives a well-formed glyph. |
| GlyphCombining.MergeComponents | bdflib/glyph_combining.py:119-132 | The new glyph ends up as `Composite` of the components' bitmaps: the base at (0,0), each further one at the advance so far. The RuntimeError branch is never taken. |
| GlyphCombining.MergeBaseComponent | bdflib/glyph_combining.py:119-123 | The base component's glyph merged onto the new empty glyph at (0, 0) gives `Composite` of the base alone. |
| GlyphCombining.MergeNextComponent | bdflib/glyph_combining.py:125-129 | A further component merged in at the glyph's advance turns `Composite` of the first j parts into `Composite` of the first j+1. |
| GlyphCombining.CompositePrefixStep | bdflib/glyph_combining.py:125-129 | One more component is a merge at the current advance. |
| GlyphCombining.CompositeSnoc | bdflib/glyph_combining.py:125-129 | The last component is merged at the advance of the rest. |
| GlyphCombining.ReadFontShaped | bdflib/reader.py:52-92 | Every font the reader returns meets the filler's invariant on bitmaps: each indexed glyph has a row for every line of its box. |
| GlyphCombining.FontFiller.constructor | bdflib/glyph_combining.py:88-90 | The filler holds the font and the table. |
| GlyphCombining.FontFiller.Build | bdflib/glyph_combining.py:92-134 | A built glyph has one row per line. |
| GlyphCombining.FontFiller.BuildableMonotone | bdflib/glyph_combining.py:97-113 | More codepoints in the font never make a codepoint unbuildable. |
| GlyphCombining.FontFiller.BuildableStable | bdflib/glyph_combining.py:97-113 | Codepoints added by building make nothing else buildable. |
| GlyphCombining.FontFiller.BuildStable | bdflib/glyph_combining.py:116-134 | Codepoints added by building change no other built glyph. |
| GlyphCombining.FontFiller.ExtendsTransitive | bdflib/glyph_combining.py:92-134 | Growing the store twice is growing it. |
| GlyphCombining.FontFiller.ExtendsKeys | bdflib/glyph_combining.py:92-134 | The store only grows: no codepoint is removed. |
| GlyphCombining.FontFiller.PartsOf | bdflib/glyph_combining.py:120-128 | The components' bitmaps, one per component, in order. |
| GlyphCombining.FontFiller.GatheredBuildable | bdflib/glyph_combining.py:105-113 | Once every component is present with class 0, the codepoint was buildable. |
| GlyphCombining.FontFiller.GatheredBuild | bdflib/glyph_combining.py:116-129 | The glyph composed from the gathered components is its `Build`. |
| GlyphCombining.FontFiller.ExtendsByBuild | bdflib/glyph_combining.py:116-117 | Registering a built glyph keeps the store an extension. |
| GlyphCombining.FontFiller.BuildFromParts | bdflib/glyph_combining.py:105-134 | The three facts above together. |
| GlyphCombining.FontFiller.NotBuildable | bdflib/glyph_combining.py:106-113 | A component that cannot be added, or whose class is not 0, makes the codepoint unbuildable. |
| GlyphCombining.FontFiller.AddGlyphToFont | bdflib/glyph_combining.py:92-134 | True exactly when `Buildable` on the font as it was, and exactly when the font then has the codepoint. Present, or without an entry: nothing changes. The store only grows. Every added glyph is the `Build` of its codepoint. The glyph list only grows (`Grown`): one "char<c>" glyph is appended per new codepoint. On False for a codepoint with an entry, there is a component (`FailedAt`) before which every component was added with a supported class, and that component was itself tried: it is in the font if it could be built. |
| GlyphCombining.FontFiller.AddComponents | bdflib/glyph_combining.py:105-113 | Components are taken in order. True means every component was added with a supported class (`Gathered`). False means the codepoint is unbuildable, and some component `FailedAt`: all before it are in the font with a supported class, and it was tried. Glyphs already added stay, the list only grows (`Grown`), and the codepoint itself is not registered. |
| GlyphCombining.FontFiller.AddComponent | bdflib/glyph_combining.py:106-113 | One component: added recursively, then its class is checked. Afterwards it is in the font if it can be built. True exactly when it is in the font and its class is supported. False makes the codepoint unbuildable. The list only grows (`Grown`). |
| GlyphCombining.FontFiller.DrawComposite | bdflib/glyph_combining.py:116-134 | Appends exactly one fresh glyph to the list. It is named "char<c>", has codepoint c and is indexed under c; no other index entry changes. Its bitmap is the `Composite` of the components, and no other codepoint's bitmap changes. |
| GlyphCombining.FontFiller.NewComposite | bdflib/glyph_combining.py:116-117 | `new_glyph_from_data("char%d" % ord(char), codepoint=ord(char))`, the other arguments at their defaults, on a free codepoint: an empty glyph named "char<c>" with codepoint c is appended and indexed under c, and nothing else changes. |
| GlyphCombining.FontFiller.AddDecomposableGlyphsToFont | bdflib/glyph_combining.py:136-141 | The font ends with exactly its old codepoints plus the table's buildable ones, each the `Build` on the font as it was, whatever the visiting order. The old glyph list is a prefix of the new one, and one "char<c>" glyph is appended per new codepoint (`Grown`). |
| GlyphCombining.FontFiller.GatheredBeforeStep | bdflib/glyph_combining.py:106-113 | Components already gathered stay gathered as the font grows, and one more gathered component extends the prefix. |
| GlyphCombining.GrownByOne | bdflib/model.py:196-206 | Appending a glyph "char<c>" and indexing it under its free codepoint c is growth of the glyph list. |
| GlyphCombining.GrownTransitive | bdflib/glyph_combining.py:92-141 | Growth of the glyph list composes: growth from a first state to a second, then to a third, is growth from the first to the third. |
| Reader.Fields | bdflib/reader.py:17-19 | `line.strip().split(' ')` always has a key. |
| Reader.IntField | bdflib/reader.py:24-26 | `int(values[i])` raises only IndexError or ValueError. |
| Reader.IntFields | bdflib/reader.py:28 | One integer per field. |
| Reader.StripAll | bdflib/reader.py:31 | Each bitmap line is stripped, in order. |
| Reader.BitmapBlock | bdflib/reader.py:29-34 | A bitmap block consumes exactly bbH lines (none for a negative height) and the ENDCHAR line. |
| Reader.ScanGlyph | bdflib/reader.py:16-34 | A glyph record read consumes at least one line and stays within the input. |
| Reader.ScanGlyphRows | bdflib/reader.py:16-34 | A glyph record read yields one bitmap line per line of the box its header declares (none for a negative height). |
| Reader.ScanGlyphShape | bdflib/reader.py:16-34 | A glyph record is header lines up to the first BITMAP line, then the bitmap block read with the header those lines produced. |
| Reader.BitmapLineStarts | bdflib/reader.py:29-32 | BITMAP starts the block at once with the header as it stands. |
| Reader.HeaderStep | bdflib/reader.py:16-28 | Any other line moves the scan one line on. |
| Reader.FirstBitmapBefore | bdflib/reader.py:16-32 | The first BITMAP line found from the next line on is the first from this one. |
| Reader.BitmapBlockShape | bdflib/reader.py:29-34 | The data is the next bbH lines stripped (none for a negative height), and the line after them is exactly "ENDCHAR". |
| Reader.BbxOrder | bdflib/reader.py:27-28 | "BBX w h x y" sets bbW, bbH, bbX, bbY in that order. |
| Reader.Decimals | bdflib/reader.py:28 | One text per integer. |
| Reader.IntFieldsOfDecimals | bdflib/reader.py:28 | Integers written in decimal read back as themselves. |
| Reader.DwidthFirstValue | bdflib/reader.py:25-26 | DWIDTH sets the advance from its first value only. |
| Reader.EncodingValue | bdflib/reader.py:23-24 | ENCODING sets the codepoint. |
| Reader.BitmapFirstDefaults | bdflib/reader.py:7-14 | A glyph with no header lines has name "", codepoint -1, a zero box and advance, and no rows. |
| Reader.Undouble | bdflib/reader.py:43 | `replace('""', '"')` never lengthens the text. |
| Reader.PropertySplit | bdflib/reader.py:47-49 | A property line splits at its first space. The value may hold more spaces. |
| Reader.SplitOnceFirst | bdflib/reader.py:47 | `split(' ', 1)` splits at the first separator. |
| Reader.IntPropertyValue | bdflib/reader.py:44-45 | An unquoted decimal reads as that integer. |
| Reader.QuotedPropertyValue | bdflib/reader.py:42-43 | A quoted value is its inner text with `""` made `"`. |
| Reader.PropertyRead | bdflib/reader.py:40-49 | One property line is consumed, a font is needed, and only the properties change. |
| Reader.ScanProperties | bdflib/reader.py:81-82 | n property reads consume n lines and change only the properties. |
| Reader.ScanPropertiesUnfold | bdflib/reader.py:82 | n reads are one read, then n-1. |
| Reader.GlyphRead | bdflib/reader.py:6-37 | One glyph read needs a font and appends exactly the glyph read. |
| Reader.ScanGlyphs | bdflib/reader.py:86-87 | Glyph reads stay within the input, and zero reads change nothing. |
| Reader.ScanGlyphsUnfold | bdflib/reader.py:87 | n reads are one read, then n-1. |
| Reader.ScanGlyphsGrows | bdflib/reader.py:86-87 | A non-empty glyph section needs a font, adds one glyph per read, and changes neither properties nor comments. |
| Reader.Expect | bdflib/reader.py:34 | `assert iterator.next() == want` consumes exactly that line. |
| Reader.PropertyBlock | bdflib/reader.py:80-84 | STARTPROPERTIES n: n property lines, then ENDPROPERTIES. |
| Reader.FontLine | bdflib/reader.py:60-88 | One pass of the loop moves on at least one line. |
| Reader.AddGlyphConsistent | bdflib/model.py:196-206 | Adding a glyph with a line for each line of its box keeps the font sound and appends exactly that glyph. |
| Reader.DuplicateEncoding | bdflib/reader.py:36-37 | A second glyph with an indexed ENCODING is appended, and then GlyphExists is raised. |
| Reader.GlyphReadStep | bdflib/reader.py:6-37 | A successful glyph read scanned a record and added it without error. |
| Reader.GlyphReadConsistent | bdflib/reader.py:36-37 | A glyph read keeps a sound font sound. |
| Reader.ScanGlyphsConsistent | bdflib/reader.py:86-87 | A glyph section keeps a sound font sound. |
| Reader.PropertiesSection | bdflib/reader.py:80-84 | A properties section leaves `_read_font` at the next header line with a sound font. |
| Reader.GlyphSection | bdflib/reader.py:85-90 | The glyph section ends the read with a sound font. |
| Reader.FontHeaderStep | bdflib/reader.py:65-79 | Any other header line moves on one line. A font it makes is sound. |
| Reader.ScanFontConsistent | bdflib/reader.py:52-92 | Every font `_read_font` returns has a sound codepoint index, and each of its glyphs has a row for every line of its box. |
| Reader.ReadLinesConsistent | bdflib/reader.py:95-96 | Likewise for `read_from_iterable`. |
| Reader.JoinAppend | bdflib/reader.py:66 | Joining two lists is the two joins with a separator between. |
| Reader.CommentsInOrder | bdflib/reader.py:65-79 | The font's comment lines, joined with newlines, are the COMMENT texts in order. |
| Reader.LineIterator.constructor | bdflib/reader.py:95-96 | `iter(iterable)` starts at the first line. |
| Reader.LineIterator.Next | bdflib/reader.py:31 | `next()` gives the next line, or StopIteration at the end. |
| Reader.GlyphValuesAppend | bdflib/model.py:199 | Appending a glyph object appends its value. |
| Reader.IndexValuesUpdate | bdflib/model.py:205 | Indexing a glyph object indexes its value. |
| Reader.GlyphValuesKept | bdflib/model.py:196-206 | Glyph objects untouched by a step keep their values. |
| Reader.IndexValuesKept | bdflib/model.py:196-206 | Likewise for the index. |
| Reader.ReadRows | bdflib/reader.py:31 | Reads bbH stripped lines, or fails exactly when they run out. |
| Reader.ReadGlyphLines | bdflib/reader.py:7-34 | Equal to `ScanGlyph` from the iterator's position, which it leaves after ENDCHAR. |
| Reader.AddGlyph | bdflib/reader.py:36-37 | `new_glyph_from_data` on the object, mirrored exactly by `AddGlyphValue` on its value. |
| Reader.ReadGlyph | bdflib/reader.py:6-37 | Equal to `GlyphRead`: same error, same font, same position. |
| Reader.ReadProperty | bdflib/reader.py:40-49 | Equal to `PropertyRead`. |
| Reader.ReadNextProperty | bdflib/reader.py:82 | One turn of the property loop: an error ends it, otherwise n-1 reads remain. |
| Reader.ReadProperties | bdflib/reader.py:81-82 | Equal to `ScanProperties`. |
| Reader.ReadNextGlyph | bdflib/reader.py:87 | One turn of the glyph loop. |
| Reader.ReadGlyphs | bdflib/reader.py:86-87 | Equal to `ScanGlyphs`. |
| Reader.MakeFont | bdflib/reader.py:73-79 | A fresh font holding `Font(name, size, resX, resY)` with the saved comments added in order. |
| Reader.ReadPropertyBlock | bdflib/reader.py:80-84 | Equal to `PropertyBlock`. |
| Reader.ReadGlyphBlock | bdflib/reader.py:85-88 | Equal to `GlyphBlock`. |
| Reader.ReadHeaderLine | bdflib/reader.py:65-79 | COMMENT, FONT, SIZE and FONTBOUNDINGBOX update the locals exactly as `FontHeaderLine` says. |
| Reader.ReadFontLine | bdflib/reader.py:60-88 | One pass of the loop, equal to `FontLine`. |
| Reader.ReadFont | bdflib/reader.py:52-92 | Equal to `ScanFont`: same error, or a font holding the scanned value. |
| Reader.ReadFromIterable | bdflib/reader.py:95-96 | Equal to `ReadLines`, and a font it returns has a sound index. |
| Writer.Double | bdflib/writer.py:10 | `replace('"', '""')` adds one character per double quote. |
| Writer.QuotePropertyValue | bdflib/writer.py:5-10 | A value that is not an `int` is quoted. Its length is len + 2 + the number of double quotes, and it starts and ends with '"'. |
| Writer.UndoubleDouble | bdflib/writer.py:10 | Undoubling the doubled text gives it back. |
| Writer.ParseQuoted | bdflib/writer.py:5-10 | `parse_property(quote_property_value(v))` gives v for an `int` or a string. A `long` or a float comes back as its text. |
| Writer.QuotedEnd | bdflib/writer.py:7-10 | A written value ends in a digit or a double quote. |
| Writer.PropertyLineRoundTrip | bdflib/writer.py:22 | A `key value` line the writer lays out reads back as the key and the value. |
| Writer.StringPropertyRoundTrip | bdflib/writer.py:9-10 | Every string property survives a write and a read. |
| Util.StrLessTransitive | bdflib/util.py:37 | Python 2 string order is transitive. |
| Util.StrLessTotal | bdflib/util.py:37 | It orders any two different strings. |
| Util.RowLessTransitive | bdflib/util.py:36-37 | (count, item) tuple order is transitive. |
| Util.RowLessTotal | bdflib/util.py:36-37 | It orders any two different rows. |
| Util.Insert | bdflib/util.py:37 | Inserting into an ascending list keeps it ascending and adds exactly that row. |
| Util.InsertBehind | bdflib/util.py:37 | A row that does not go first goes into the rest. |
| Util.SortRows | bdflib/util.py:37 | `data.sort()`: ascending, and a permutation of the data. |
| Util.SumOverOther | bdflib/util.py:15-24 | Changing another item's count leaves a sum alone. |
| Util.SumOverIncrement | bdflib/util.py:21-22 | Adding one to a count adds one to the sum. |
| Util.SumOverAppend | bdflib/util.py:23-24 | A new item adds its count to the sum. |
| Util.Tally.constructor | bdflib/util.py:10-13 | An empty counter, with caption and item name kept. |
| Util.Tally.Record | bdflib/util.py:15-24 | A new item gets 1 and a seen item gets +1. No other count changes. Every count stays >= 1, and the counts sum to the number of records. |
| Util.Tally.Show | bdflib/util.py:27-47 | One row per counted item, with its count, strictly ascending by (count, item). An empty tally gives none. |
| Text.Strip | bdflib/reader.py:17 | `strip()` leaves no blank at either end. |
| Text.SplitOnSpec | bdflib/model.py:174 | `split(sep)` pieces hold no separator and join back to the text. |
| Text.SplitJoin | bdflib/model.py:174 | Splitting a join of separator-free pieces gives the pieces. |
| Text.SplitOnce | bdflib/reader.py:47 | `split(sep, 1)`: the key holds no separator. |
| Text.SplitWords | bdflib/glyph_combining.py:47 | `split()`: the words are non-empty and blank-free. |
| Text.HexRoundTrip | bdflib/model.py:79-97 | `int("%*X" % (w, n), 16) == n`. |
| Text.FormatHexLength | bdflib/model.py:97 | `"%*X"` pads to at least the width. |
| Text.ParseIntRoundTrip | bdflib/writer.py:8 | `int(str(n)) == n`. |

## Left out

- I/O: `read_from_file`, `read_from_string` and `write_bdf` are not modelled. `write_bdf` writes to a stream and reads attributes the font model does not define. Only its property-line layout (`key value`, writer.py:22) appears, in `Writer.PropertyLineRoundTrip`.
- `effects.py` and `setup.py` are not part of this model.
- The Unicode character database: `unicodedata.decomposition` and `unicodedata.combining` are function parameters of `Decompositions.BuildDecompositions`. The table is keyed by codepoint (`ord(char)`).
- Floating point: SIZE's `float(values[0])` is kept as its text (`PropValue.Real`). A malformed point size therefore never raises ValueError in the model, and the value is printed as that text (see `Writer.QuotePropertyValue` below).
- Reader.ReadHeaderLine: does not model the ValueError `float()` raises on a malformed SIZE point size, because floats are kept as text.
- GlyphCombining.FontFiller.AddGlyphToFont: assumes an acyclic table, given as a ghost ranking. The source has no cycle guard; on a cyclic table Python 2 stops at its recursion limit with RuntimeError ("maximum recursion depth exceeded"), which is not modelled. It also assumes that every entry has at least one component (`|decompositions[c]| >= 1` in `Ranked`). With an empty entry the source registers "char<c>" and then raises IndexError at `components[0]` (bdflib/glyph_combining.py:120), leaving the glyph registered; `build_unicode_decompositions` never produces an empty entry (`Decompositions.EntryNonEmpty`). Codepoints are characters, from 0 to `sys.maxunicode`, as `ord` gives them.
- GlyphCombining.FontFiller.AddGlyphToFont / GlyphCombining.FontFiller.AddDecomposableGlyphsToFont: assume that every indexed glyph has a row for each line of its box. Extra rows and boxes of negative height are allowed. Every font the reader returns meets this (`GlyphCombining.ReadFontShaped`), and so does every glyph `merge_glyph` makes. A glyph given fewer rows through `new_glyph_from_data` makes `merge_glyph` raise IndexError partway through `add_glyph_to_font`, after the new glyph is registered. That error path is not modelled.
- Model.Glyph.SetData / Text.ParseHex: `int(row, 16)` also accepts a sign and a `0x`/`0X` prefix. The model treats such rows as malformed (`NotHex`). A row with a minus sign would give a negative row, which the model's rows (`nat`) cannot hold. The same applies to the codepoints of a decomposition mapping (`Decompositions.ParseCodepoints`). `Text.ParseInt` likewise rejects a blank between the sign and the digits, which Python 2's `int()` accepts.
- Model.Font.GetProperty: `font[key]` for a key that is neither `str` nor an integer returns None in Python. The model's keys are typed, so that case does not arise; the same holds for `HasProperty`. An integer key above `sys.maxint` (a `long`) does arise, and `GetGlyph` and `HasCodepoint` treat it as absent, as the source does.
- Util.Tally.Show: the caption, header and `repr` formatting that `show` prints are not modelled, only the rows and their order. Items are strings. The sort is performed on a sequence value, not on the list in place.
- Writer.QuotePropertyValue: a point size is written back as the SIZE text it was read from (`PropValue.Real`), not as Python's `str(float(...))`. So SIZE 12 gives POINT_SIZE "12" in the model, where Python writes "12.0". Other Python objects are not modelled.
- Decompositions.BuildDecompositions: `sys.maxunicode` is that of a wide Python 2 build, 0x10FFFF (`Decompositions.MaxUnicode`). On a narrow build the loop and the `unichr` limit stop at 0xFFFF instead.
- Model.Glyph.constructor: takes no `data`. A glyph built with rows goes through `SetData`, as `Font.NewGlyphFromData` does.
- Python 2 `int` versus `long`: `isinstance(..., int)` is modelled with the 64-bit `sys.maxint`, in the writer and in the font's codepoint lookups. A property integer outside that range is written quoted and reads back as a string (`Writer.ParseQuoted`). This follows the code.

## Findings

| source | as written | input that shows it | evidently intended | confidence | as-written member | corrected member |
|---|---|---|---|---|---|---|
| bdflib/model.py:88-97 | `get_data` prints each row with `"%*X"` at `bbW // 4` columns, which rounds the width down. | A glyph 9 pixels wide with a blank row prints the row as " 0". `_set_data` then computes a shift of 2*4 - 9 = -1 and raises ValueError, so `get_data` output does not read back. | Print at ceil(bbW / 4) columns, so every row reads back as itself. | not executed | Bitmaps.EncodeRowAsWrittenShort | Bitmaps.RowsRoundTrip |
