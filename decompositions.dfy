/**
 * The decomposition table of `glyph_combining`: for each codepoint, the
 * codepoints a glyph for it can be drawn from, each paired with its canonical
 * combining class. The Unicode character database is not part of the model:
 * the decomposition mapping of a codepoint (the text `unicodedata.decomposition`
 * returns, as in section 5.7.3 of Unicode Standard Annex #44) and the
 * combining class of a codepoint are parameters.
 */
module Decompositions {
  import opened Wrappers
  import opened Text

  /** A component of a composed glyph: a codepoint and its canonical combining class. */
  datatype Component = Component(cp: int, cls: int)

  /** The outcome of one codepoint: no entry, an entry, or an error that aborts the whole build. */
  datatype Outcome = NoEntry | Entry(components: seq<Component>) | Malformed

  /** The decomposition types whose glyphs are drawn from their components side by side. */
  const UsefulCompositionTypes: seq<string> := ["<compat>", "<noBreak>"]

  /** Ordinary spacing characters: the only combining class glyphs are combined in. */
  const SupportedCombiningClasses: seq<int> := [0]

  /** Above attached (214) and above (230). */
  const AboveCombiningClasses: seq<int> := [214, 230]

  /** `sys.maxunicode` of a wide Python build. */
  const MaxUnicode: int := 0x10FFFF

  const SmallI: int := 0x69
  const SmallJ: int := 0x6A
  const DotlessI: int := 0x131
  const DotlessJ: int := 0x237

  /** The soft-dotted letters and the dotless letters that replace them under an accent above. */
  function SoftDotted(cp: int): Option<int>
  {
    if cp == SmallI then Some(DotlessI) else if cp == SmallJ then Some(DotlessJ) else None
  }

  /** `unichr(int(w, 16))` for each word, or None where either call raises. */
  function ParseCodepoints(words: seq<string>): (r: Option<seq<int>>)
    ensures r.Some? <==> forall i :: 0 <= i < |words| ==> ParseHex(words[i]).Some? && ParseHex(words[i]).value <= MaxUnicode
    ensures r.Some? ==> |r.value| == |words| &&
                        forall i :: 0 <= i < |words| ==> r.value[i] == ParseHex(words[i]).value
  {
    if words == [] then Some([])
    else
      var h := ParseHex(words[0]);
      var rest := ParseCodepoints(words[1..]);
      if h.None? || h.value > MaxUnicode then None
      else if rest.None? then
        assert !(ParseHex(words[1..][0]).Some? && ParseHex(words[1..][0]).value <= MaxUnicode) || exists i :: 0 <= i < |words| - 1 && !(ParseHex(words[1..][i]).Some? && ParseHex(words[1..][i]).value <= MaxUnicode);
        None
      else Some([h.value] + rest.value)
  }

  /** Whether some component after the first is drawn above: class 214 or 230. */
  predicate HasAboveComponent(cps: seq<int>, combining: int -> int)
  {
    exists k :: 1 <= k < |cps| && combining(cps[k]) in AboveCombiningClasses
  }

  /** A soft-dotted base loses its dot when a later component goes above it. */
  function UndotBase(cps: seq<int>, combining: int -> int): seq<int>
    requires |cps| >= 1
  {
    if SoftDotted(cps[0]).Some? && |cps| > 1 && HasAboveComponent(cps, combining)
    then [SoftDotted(cps[0]).value] + cps[1..]
    else cps
  }

  /** Each codepoint paired with its combining class, in order. */
  function WithClasses(cps: seq<int>, combining: int -> int): (r: seq<Component>)
    ensures |r| == |cps|
    ensures forall k :: 0 <= k < |cps| ==> r[k] == Component(cps[k], combining(cps[k]))
  {
    if cps == [] then [] else [Component(cps[0], combining(cps[0]))] + WithClasses(cps[1..], combining)
  }

  /** The step after the tag is dealt with: parse, undot the base, pair with classes. */
  function DecomposeWords(words: seq<string>, combining: int -> int): Outcome
  {
    match ParseCodepoints(words)
    case None => Malformed
    case Some(cps) =>
      if cps == [] then Malformed
      else Entry(WithClasses(UndotBase(cps, combining), combining))
  }

  /** The body of the loop of `build_unicode_decompositions` for one codepoint's mapping. */
  function Decompose(mapping: string, combining: int -> int): Outcome
  {
    var words := SplitWords(mapping);
    if words == [] then NoEntry
    else if |words[0]| > 0 && words[0][0] == '<' then
      if words[0] in UsefulCompositionTypes then DecomposeWords(words[1..], combining) else NoEntry
    else DecomposeWords(words, combining)
  }

  // ----- the tag filter -----

  /** A codepoint without a decomposition gets no entry. */
  lemma NoMappingNoEntry(mapping: string, combining: int -> int)
    requires SplitWords(mapping) == []
    ensures Decompose(mapping, combining) == NoEntry
  {
  }

  /**
   * A leading `<tag>` other than `<compat>` and `<noBreak>` drops the codepoint;
   * those two are removed and the rest read as an untagged mapping.
   */
  lemma TagFilter(tag: string, rest: string, combining: int -> int)
    requires IsWord(tag) && tag[0] == '<'
    ensures tag !in UsefulCompositionTypes ==> Decompose(tag + " " + rest, combining) == NoEntry
    ensures tag in UsefulCompositionTypes ==>
              Decompose(tag + " " + rest, combining) == DecomposeWords(SplitWords(rest), combining)
  {
    SplitWordsCons(tag, rest);
  }

  /** An untagged mapping is read as it stands. */
  lemma UntaggedKept(mapping: string, combining: int -> int)
    requires SplitWords(mapping) != [] && SplitWords(mapping)[0][0] != '<'
    ensures Decompose(mapping, combining) == DecomposeWords(SplitWords(mapping), combining)
  {
  }

  /** SUPERSCRIPT TWO decomposes as "<super> 0032" and so gets no entry. */
  lemma SuperscriptTwoDropped(combining: int -> int)
    ensures Decompose("<super> 0032", combining) == NoEntry
  {
    assert IsWord("<super>") by {
      forall i | 0 <= i < |"<super>"| ensures !IsSpace("<super>"[i]) { }
    }
    TagFilter("<super>", "0032", combining);
    assert "<super>" + " " + "0032" == "<super> 0032";
  }

  // ----- the soft-dotted rewrite and the class pairing -----

  /**
   * The entry for well-formed codepoints `cps`: the base is replaced by its
   * dotless form exactly when it is `i` or `j`, there is more than one
   * component and one after the base is drawn above; every other component is
   * kept; each is paired with its own combining class, looked up after the rewrite.
   */
  lemma EntryShape(words: seq<string>, cps: seq<int>, combining: int -> int)
    requires ParseCodepoints(words) == Some(cps) && cps != []
    ensures DecomposeWords(words, combining).Entry?
    ensures var comps := DecomposeWords(words, combining).components;
            |comps| == |cps| &&
            (comps[0].cp != cps[0] <==> SoftDotted(cps[0]).Some? && |cps| > 1 && HasAboveComponent(cps, combining)) &&
            (comps[0].cp != cps[0] ==> comps[0].cp == SoftDotted(cps[0]).value) &&
            (forall k :: 1 <= k < |cps| ==> comps[k].cp == cps[k]) &&
            (forall k :: 0 <= k < |cps| ==> comps[k].cls == combining(comps[k].cp))
  {
    var u := UndotBase(cps, combining);
    assert DecomposeWords(words, combining) == Entry(WithClasses(u, combining));
    UndotBaseShape(cps, combining);
  }

  /** The rewrite touches the base only, and only under the three conditions. */
  lemma UndotBaseShape(cps: seq<int>, combining: int -> int)
    requires |cps| >= 1
    ensures var u := UndotBase(cps, combining);
            |u| == |cps| &&
            (u[0] != cps[0] <==> SoftDotted(cps[0]).Some? && |cps| > 1 && HasAboveComponent(cps, combining)) &&
            (u[0] != cps[0] ==> u[0] == SoftDotted(cps[0]).value) &&
            (forall k :: 1 <= k < |cps| ==> u[k] == cps[k])
  {
  }

  /** Every entry has at least one component. */
  lemma EntryNonEmpty(mapping: string, combining: int -> int)
    requires Decompose(mapping, combining).Entry?
    ensures |Decompose(mapping, combining).components| >= 1
  {
  }

  /** The words of the decomposition of U+00EF. */
  lemma IWithDiaeresisWords()
    ensures SplitWords("0069 0308") == ["0069", "0308"]
  {
    assert IsWord("0069") by {
      forall i | 0 <= i < |"0069"| ensures !IsSpace("0069"[i]) { }
    }
    assert IsWord("0308") by {
      forall i | 0 <= i < |"0308"| ensures !IsSpace("0308"[i]) { }
    }
    SplitWordsSingle("0308");
    SplitWordsCons("0069", "0308");
    assert "0069" + " " + "0308" == "0069 0308";
  }

  /** The codepoints of the decomposition of U+00EF. */
  lemma IWithDiaeresisCodepoints()
    ensures ParseCodepoints(["0069", "0308"]) == Some([0x69, 0x308])
  {
    StripTrimmed("0069");
    StripTrimmed("0308");
    assert HexValue("0069") == 0x69 by {
      assert "0069"[..3] == "006" && "006"[..2] == "00" && "00"[..1] == "0" && "0"[..0] == "";
    }
    assert HexValue("0308") == 0x308 by {
      assert "0308"[..3] == "030" && "030"[..2] == "03" && "03"[..1] == "0" && "0"[..0] == "";
    }
    assert ParseHex("0069") == Some(0x69);
    assert ParseHex("0308") == Some(0x308);
    CodepointsOf(["0069", "0308"], [0x69, 0x308]);
  }

  /** Words that each parse as a codepoint give exactly those codepoints. */
  lemma CodepointsOf(words: seq<string>, cps: seq<int>)
    requires |words| == |cps|
    requires forall i :: 0 <= i < |words| ==> ParseHex(words[i]) == Some(cps[i]) && cps[i] <= MaxUnicode
    ensures ParseCodepoints(words) == Some(cps)
  {
    var r := ParseCodepoints(words);
    assert r.Some?;
    assert r.value == cps;
  }

  /**
   * LATIN SMALL LETTER I WITH DIAERESIS, "0069 0308", with the diaeresis drawn
   * above (class 230), is built on the dotless i.
   */
  lemma IWithDiaeresis(combining: int -> int)
    requires combining(0x308) == 230 && combining(DotlessI) == 0
    ensures Decompose("0069 0308", combining) == Entry([Component(DotlessI, 0), Component(0x308, 230)])
  {
    IWithDiaeresisWords();
    UntaggedKept("0069 0308", combining);
    IWithDiaeresisEntry(combining);
  }

  /** The entry for the words of the decomposition of U+00EF. */
  lemma IWithDiaeresisEntry(combining: int -> int)
    requires combining(0x308) == 230 && combining(DotlessI) == 0
    ensures DecomposeWords(["0069", "0308"], combining) == Entry([Component(DotlessI, 0), Component(0x308, 230)])
  {
    var cps := [0x69, 0x308];
    IWithDiaeresisCodepoints();
    EntryShape(["0069", "0308"], cps, combining);
    assert HasAboveComponent(cps, combining) by {
      assert combining(cps[1]) in AboveCombiningClasses;
    }
    var comps := DecomposeWords(["0069", "0308"], combining).components;
    assert comps[0] == Component(DotlessI, 0);
    assert comps[1] == Component(0x308, 230);
    assert comps == [Component(DotlessI, 0), Component(0x308, 230)];
  }

  // ----- the table -----

  /** The outcome of every codepoint, given the two Unicode database lookups. */
  ghost function Outcomes(decomposition: int -> string, combining: int -> int): int -> Outcome
  {
    cp => Decompose(decomposition(cp), combining)
  }

  /** `res` holds exactly the entries among the outcomes of codepoints 0 .. upTo - 1. */
  ghost predicate TableOf(res: map<int, seq<Component>>, upTo: int, outcome: int -> Outcome)
  {
    (forall cp :: cp in res ==> 0 <= cp < upTo && outcome(cp) == Entry(res[cp])) &&
    (forall cp :: 0 <= cp < upTo && outcome(cp).Entry? ==> cp in res)
  }

  /** The table the build returns when no codepoint is malformed. */
  ghost predicate IsTable(res: map<int, seq<Component>>, upTo: int, decomposition: int -> string, combining: int -> int)
  {
    TableOf(res, upTo, Outcomes(decomposition, combining))
  }

  /** One more codepoint examined: its entry, if any, joins the table. */
  lemma TableStep(res: map<int, seq<Component>>, upTo: int, outcome: int -> Outcome)
    requires upTo >= 0 && TableOf(res, upTo, outcome)
    ensures outcome(upTo).NoEntry? ==> TableOf(res, upTo + 1, outcome)
    ensures outcome(upTo).Entry? ==> TableOf(res[upTo := outcome(upTo).components], upTo + 1, outcome)
  {
  }

  /** No codepoint below `upTo` has a malformed mapping. */
  ghost predicate NoneMalformed(upTo: int, decomposition: int -> string, combining: int -> int)
  {
    forall cp :: 0 <= cp < upTo ==> !Decompose(decomposition(cp), combining).Malformed?
  }

  lemma NoneMalformedStep(upTo: int, decomposition: int -> string, combining: int -> int)
    requires NoneMalformed(upTo, decomposition, combining)
    requires !Decompose(decomposition(upTo), combining).Malformed?
    ensures NoneMalformed(upTo + 1, decomposition, combining)
  {
  }

  /**
   * `build_unicode_decompositions`: every codepoint 0 .. sys.maxunicode whose
   * mapping gives an entry is in the table with that entry; the first codepoint
   * whose mapping is malformed aborts the build.
   */
  method BuildDecompositions(decomposition: int -> string, combining: int -> int)
    returns (r: Result<map<int, seq<Component>>, int>)
    ensures r.Success? ==> IsTable(r.value, MaxUnicode + 1, decomposition, combining)
    ensures r.Success? ==> forall cp :: cp in r.value ==> |r.value[cp]| >= 1
    ensures r.Success? <==> NoneMalformed(MaxUnicode + 1, decomposition, combining)
    ensures r.Failure? ==> 0 <= r.error <= MaxUnicode && Decompose(decomposition(r.error), combining).Malformed? &&
                           NoneMalformed(r.error, decomposition, combining)
  {
    var res: map<int, seq<Component>> := map[];
    var codepoint := 0;
    while codepoint <= MaxUnicode
      invariant 0 <= codepoint <= MaxUnicode + 1
      invariant IsTable(res, codepoint, decomposition, combining)
      invariant forall cp :: cp in res ==> |res[cp]| >= 1
      invariant NoneMalformed(codepoint, decomposition, combining)
    {
      var outcome := Decompose(decomposition(codepoint), combining);
      assert outcome == Outcomes(decomposition, combining)(codepoint);
      TableStep(res, codepoint, Outcomes(decomposition, combining));
      match outcome {
        case NoEntry =>
          NoneMalformedStep(codepoint, decomposition, combining);
        case Malformed =>
          return Failure(codepoint);
        case Entry(components) =>
          EntryNonEmpty(decomposition(codepoint), combining);
          NoneMalformedStep(codepoint, decomposition, combining);
          res := res[codepoint := components];
      }
      codepoint := codepoint + 1;
    }
    return Success(res);
  }
}
