/**
 * `FontFiller` of `glyph_combining`: glyphs for codepoints the font lacks are
 * drawn from the glyphs of their components, side by side. What a codepoint
 * can be built from, and what the built glyph looks like, is stated by the
 * ghost functions `Buildable` and `Build` over the font's bitmaps before the
 * call; the methods are proved against them.
 */
module GlyphCombining {
  import opened Wrappers
  import opened Text
  import opened Bitmaps
  import opened Model
  import opened Decompositions
  import Reader

  // ----- composing bitmaps -----

  predicate AllShaped(parts: seq<Bitmap>)
  {
    forall i :: 0 <= i < |parts| ==> Shaped(parts[i])
  }

  /**
   * The glyph `add_glyph_to_font` draws from the bitmaps of its components: a
   * new empty glyph with the base merged in at (0, 0), then each further
   * component merged in at the advance reached so far.
   */
  function Composite(parts: seq<Bitmap>): (r: Bitmap)
    requires |parts| >= 1 && AllShaped(parts)
    ensures Shaped(r)
  {
    if |parts| == 1 then Merged(Empty, parts[0], 0, 0)
    else
      var acc := Composite(parts[..|parts| - 1]);
      Merged(acc, parts[|parts| - 1], acc.advance, 0)
  }

  /** The sum of the advances of `parts`. */
  function AdvanceSum(parts: seq<Bitmap>): int
  {
    if parts == [] then 0 else AdvanceSum(parts[..|parts| - 1]) + parts[|parts| - 1].advance
  }

  /** With no negative advance, the composed glyph advances by the sum of its components' advances. */
  lemma {:induction false} CompositeAdvance(parts: seq<Bitmap>)
    requires |parts| >= 1 && AllShaped(parts)
    requires forall i :: 0 <= i < |parts| ==> parts[i].advance >= 0
    ensures Composite(parts).advance == AdvanceSum(parts)
  {
    var n := |parts|;
    if n == 1 {
      assert parts[..0] == [];
      MergeAdvance(Empty, parts[0], 0, 0);
    } else {
      var prefix := parts[..n - 1];
      assert AllShaped(prefix);
      CompositeAdvance(prefix);
      var acc := Composite(prefix);
      MergeAdvance(acc, parts[n - 1], acc.advance, 0);
    }
  }

  /** Composing well-formed glyphs gives a well-formed glyph. */
  lemma {:induction false} CompositeWellFormed(parts: seq<Bitmap>)
    requires |parts| >= 1 && forall i :: 0 <= i < |parts| ==> WellFormed(parts[i])
    ensures AllShaped(parts) && WellFormed(Composite(parts))
  {
    var n := |parts|;
    if n == 1 {
      MergeWellFormed(Empty, parts[0], 0, 0);
    } else {
      var prefix := parts[..n - 1];
      CompositeWellFormed(prefix);
      var acc := Composite(prefix);
      MergeWellFormed(acc, parts[n - 1], acc.advance, 0);
    }
  }

  /**
   * The drawing loop of `add_glyph_to_font`, on the new glyph `glyph`: the
   * base component's glyph merged in at (0, 0), then each further one at the
   * glyph's advance so far. A component whose class is not 0 would raise
   * RuntimeError, which the class check before the loop rules out.
   */
  method MergeComponents(glyph: Glyph, font: Font, components: seq<Component>, ghost parts: seq<Bitmap>)
    requires |components| == |parts| >= 1 && AllShaped(parts)
    requires forall i :: 0 <= i < |components| ==> components[i].cls in SupportedCombiningClasses
    requires forall i :: 0 <= i < |components| ==>
               components[i].cp in font.glyphsByCodepoint &&
               font.glyphsByCodepoint[components[i].cp] != glyph &&
               font.glyphsByCodepoint[components[i].cp].Value() == parts[i]
    requires glyph.Value() == Empty
    modifies glyph
    ensures glyph.Value() == Composite(parts)
  {
    // `assert base_combining_class == 0`: every class was checked.
    assert components[0].cls == 0;
    MergeBaseComponent(glyph, font.glyphsByCodepoint[components[0].cp], parts);
    var j := 1;
    while j < |components|
      invariant 1 <= j <= |components|
      invariant glyph.Value() == Composite(parts[..j])
    {
      if components[j].cls == 0 {
        MergeNextComponent(glyph, font.glyphsByCodepoint[components[j].cp], parts, j);
      } else {
        // the RuntimeError for an unsupported class is never raised
        assert false;
      }
      j := j + 1;
    }
    assert parts[..|components|] == parts;
  }

  /** The base component's glyph merged in at (0, 0) on the new, empty glyph. */
  method MergeBaseComponent(glyph: Glyph, base: Glyph, ghost parts: seq<Bitmap>)
    requires AllShaped(parts) && |parts| >= 1
    requires base != glyph && base.Value() == parts[0]
    requires glyph.Value() == Empty
    modifies glyph
    ensures glyph.Value() == Composite(parts[..1])
  {
    assert parts[..1] == [parts[0]];
    var err := glyph.MergeGlyph(base, 0, 0);
  }

  /** One turn of the drawing loop: the glyph of component `j` merged in at the advance reached so far. */
  method MergeNextComponent(glyph: Glyph, other: Glyph, ghost parts: seq<Bitmap>, j: int)
    requires AllShaped(parts) && 1 <= j < |parts|
    requires other != glyph && other.Value() == parts[j]
    requires glyph.Value() == Composite(parts[..j])
    modifies glyph
    ensures glyph.Value() == Composite(parts[..j + 1])
  {
    CompositePrefixStep(parts, j);
    var err := glyph.MergeGlyph(other, glyph.advance, 0);
  }

  /** One more component: the glyph so far with component `j` merged in at its advance. */
  lemma CompositePrefixStep(parts: seq<Bitmap>, j: int)
    requires AllShaped(parts) && 1 <= j < |parts|
    ensures AllShaped(parts[..j]) && AllShaped(parts[..j + 1])
    ensures Composite(parts[..j + 1]) == Merged(Composite(parts[..j]), parts[j], Composite(parts[..j]).advance, 0)
  {
    var q := parts[..j + 1];
    assert q[..j] == parts[..j] && q[j] == parts[j];
    assert AllShaped(q);
    CompositeSnoc(q);
  }

  lemma CompositeSnoc(parts: seq<Bitmap>)
    requires |parts| >= 2 && AllShaped(parts)
    ensures AllShaped(parts[..|parts| - 1])
    ensures Composite(parts) ==
            Merged(Composite(parts[..|parts| - 1]), parts[|parts| - 1], Composite(parts[..|parts| - 1]).advance, 0)
  {
  }

  // ----- the font's bitmaps -----

  lemma SomeCodepoint(s: set<int>) returns (c: int)
    requires s != {}
    ensures c in s
  {
    if forall x :: x !in s {
      assert false;
    }
    c :| c in s;
  }

  /** Every bitmap of a store has a row for each line of its box, so merging it raises no IndexError. */
  ghost predicate ShapedStore(store: map<int, Bitmap>)
  {
    forall k :: k in store ==> Shaped(store[k])
  }

  /**
   * A font the reader returns meets the filler's invariant on bitmaps: every
   * indexed glyph has a row for each line of its box, so no merge of the
   * filler raises IndexError on it.
   */
  lemma ReadFontShaped(font: Font, fv: Reader.FontValue)
    requires Reader.Represents(font, fv) && Reader.Consistent(fv)
    ensures font.Valid() && ShapedStore(font.Bitmaps())
  {
    forall k | k in font.Bitmaps()
      ensures Shaped(font.Bitmaps()[k])
    {
      assert Reader.IndexValues(font.glyphsByCodepoint)[k] == fv.index[k];
      var i :| 0 <= i < |fv.glyphs| && fv.glyphs[i] == fv.index[k];
      assert Shaped(fv.glyphs[i].bitmap);
    }
  }

  // ----- the glyph list -----

  /** `g` is a glyph "char<c>" indexed in `index` under its codepoint c, which `index0` lacks. */
  predicate Appended(g: Glyph, index0: map<int, Glyph>, index: map<int, Glyph>)
  {
    g.codepoint !in index0 && g.codepoint in index && index[g.codepoint] == g &&
    g.name == "char" + DecimalString(g.codepoint)
  }

  /**
   * A font with the glyph list `glyphs` and the index `index` has only gained
   * glyphs since it had `glyphs0` and `index0`: the old list is a prefix of
   * the new one and every old index entry is kept; the glyphs appended are
   * distinct, each a "char<c>" indexed under a codepoint c new to the index,
   * and every newly indexed codepoint leads to one of them, so exactly one
   * glyph is appended per new codepoint.
   */
  predicate GrownFrom(glyphs0: seq<Glyph>, index0: map<int, Glyph>, glyphs: seq<Glyph>, index: map<int, Glyph>)
  {
    glyphs0 <= glyphs &&
    (forall cp :: cp in index0 ==> cp in index && index[cp] == index0[cp]) &&
    (forall cp :: cp in index && cp !in index0 ==> index[cp] in glyphs[|glyphs0|..]) &&
    (forall i :: |glyphs0| <= i < |glyphs| ==> Appended(glyphs[i], index0, index)) &&
    (forall i, j :: |glyphs0| <= i < j < |glyphs| ==> glyphs[i] != glyphs[j])
  }

  /** Appending a new glyph "char<c>" and indexing it under its codepoint c, which was free, is growth. */
  lemma GrownByOne(glyphs0: seq<Glyph>, index0: map<int, Glyph>, g: Glyph)
    requires g.codepoint !in index0 && g.name == "char" + DecimalString(g.codepoint)
    ensures GrownFrom(glyphs0, index0, glyphs0 + [g], index0[g.codepoint := g])
  {
    assert (glyphs0 + [g])[|glyphs0|..] == [g];
  }

  /** Growth from one state to a second and from the second to a third is growth from the first to the third. */
  lemma GrownTransitive(glyphs0: seq<Glyph>, index0: map<int, Glyph>, glyphs1: seq<Glyph>, index1: map<int, Glyph>,
                        glyphs2: seq<Glyph>, index2: map<int, Glyph>)
    requires GrownFrom(glyphs0, index0, glyphs1, index1) && GrownFrom(glyphs1, index1, glyphs2, index2)
    ensures GrownFrom(glyphs0, index0, glyphs2, index2)
  {
    forall cp | cp in index2 && cp !in index0
      ensures index2[cp] in glyphs2[|glyphs0|..]
    {
      if cp in index1 {
        var k :| 0 <= k < |glyphs1| - |glyphs0| && glyphs1[|glyphs0|..][k] == index1[cp];
        assert glyphs2[|glyphs0|..][k] == index1[cp];
      } else {
        var k :| 0 <= k < |glyphs2| - |glyphs1| && glyphs2[|glyphs1|..][k] == index2[cp];
        assert glyphs2[|glyphs0|..][k + |glyphs1| - |glyphs0|] == index2[cp];
      }
    }
    forall i | |glyphs0| <= i < |glyphs2|
      ensures Appended(glyphs2[i], index0, index2)
    {
      if i < |glyphs1| {
        assert glyphs2[i] == glyphs1[i] && Appended(glyphs1[i], index0, index1);
      }
    }
    forall i, j | |glyphs0| <= i < j < |glyphs2|
      ensures glyphs2[i] != glyphs2[j]
    {
      if i < |glyphs1| <= j {
        assert glyphs2[i] == glyphs1[i] && Appended(glyphs1[i], index0, index1);
        assert Appended(glyphs2[j], index1, index2);
      }
    }
  }

  /** Utility class for filling out a font from its components: `FontFiller`. */
  class FontFiller {
    const font: Font
    const decompositions: map<int, seq<Component>>
    /**
     * A ranking of the table's codepoints, lower for every component than for
     * the codepoint it helps build: the table has no cycles, so the recursion
     * of `add_glyph_to_font` ends.
     */
    ghost const rank: map<int, nat>

    /** `FontFiller(font, decompositions)` */
    constructor (font: Font, decompositions: map<int, seq<Component>>, ghost rank: map<int, nat>)
      ensures this.font == font && this.decompositions == decompositions && this.rank == rank
    {
      this.font := font;
      this.decompositions := decompositions;
      this.rank := rank;
    }

    /**
     * The table is keyed by characters (`ord` of each is a codepoint from 0 to
     * `sys.maxunicode`), every entry has a component, and each component, a
     * character too, that has an entry of its own is ranked below the
     * codepoint it builds.
     */
    ghost predicate Ranked()
    {
      forall c :: c in decompositions ==>
        0 <= c <= MaxUnicode && c in rank && |decompositions[c]| >= 1 &&
        forall i :: 0 <= i < |decompositions[c]| ==>
          0 <= decompositions[c][i].cp <= MaxUnicode &&
          (decompositions[c][i].cp in decompositions ==>
             decompositions[c][i].cp in rank && rank[decompositions[c][i].cp] < rank[c])
    }

    ghost function Depth(c: int): nat
    {
      if c in decompositions && c in rank then rank[c] + 1 else 0
    }

    ghost predicate Valid()
      reads this, font, font.glyphs
    {
      Ranked() && font.Valid() && ShapedStore(font.Bitmaps())
    }

    /**
     * Whether `add_glyph_to_font(c)` succeeds on a font whose codepoints are
     * `keys`: `c` is there already, or it has an entry whose every component
     * can be built and has a supported combining class.
     */
    ghost predicate Buildable(c: int, keys: set<int>)
      requires Ranked()
      decreases Depth(c)
    {
      c in keys ||
      (c in decompositions &&
       forall i :: 0 <= i < |decompositions[c]| ==>
         decompositions[c][i].cls in SupportedCombiningClasses && Buildable(decompositions[c][i].cp, keys))
    }

    /** The bitmap `c` has once built on the font whose bitmaps are `store`. */
    ghost function Build(c: int, store: map<int, Bitmap>): (r: Bitmap)
      requires Ranked() && ShapedStore(store) && Buildable(c, store.Keys)
      ensures Shaped(r)
      decreases Depth(c)
    {
      if c in store then store[c]
      else
        var comps := decompositions[c];
        Composite(seq(|comps|, i requires 0 <= i < |comps| => Build(comps[i].cp, store)))
    }

    /**
     * `store` only adds to `before`: every bitmap of `before` is kept, and every
     * new one is a buildable codepoint's `Build` on `before`.
     */
    ghost predicate Extends(before: map<int, Bitmap>, store: map<int, Bitmap>)
      requires Ranked()
    {
      ShapedStore(before) &&
      (forall k :: k in before ==> k in store && store[k] == before[k]) &&
      (forall k :: k in store && k !in before ==> Buildable(k, before.Keys) && store[k] == Build(k, before))
    }

    lemma ExtendsShaped(before: map<int, Bitmap>, store: map<int, Bitmap>)
      requires Ranked() && Extends(before, store)
      ensures ShapedStore(store)
    {
    }

    lemma ExtendsKeys(before: map<int, Bitmap>, store: map<int, Bitmap>)
      requires Ranked() && Extends(before, store)
      ensures before.Keys <= store.Keys
    {
      forall k | k in before.Keys
        ensures k in store.Keys
      {
        assert k in before;
      }
    }

    /** More codepoints in the font never make a codepoint unbuildable. */
    lemma {:induction false} BuildableMonotone(c: int, keys: set<int>, more: set<int>)
      requires Ranked() && keys <= more && Buildable(c, keys)
      ensures Buildable(c, more)
      decreases Depth(c)
    {
      if c !in keys {
        var comps := decompositions[c];
        forall i | 0 <= i < |comps|
          ensures Buildable(comps[i].cp, more)
        {
          BuildableMonotone(comps[i].cp, keys, more);
        }
      }
    }

    /** Codepoints added by building do not make anything else buildable. */
    lemma {:induction false} BuildableStable(c: int, before: map<int, Bitmap>, store: map<int, Bitmap>)
      requires Ranked() && Extends(before, store) && Buildable(c, store.Keys)
      ensures Buildable(c, before.Keys)
      decreases Depth(c)
    {
      if c !in store {
        var comps := decompositions[c];
        forall i | 0 <= i < |comps|
          ensures Buildable(comps[i].cp, before.Keys)
        {
          BuildableStable(comps[i].cp, before, store);
        }
      }
    }

    /** Codepoints added by building do not change what anything else is built as. */
    lemma {:induction false} BuildStable(c: int, before: map<int, Bitmap>, store: map<int, Bitmap>)
      requires Ranked() && Extends(before, store) && Buildable(c, before.Keys)
      ensures ShapedStore(store) && Buildable(c, store.Keys)
      ensures Build(c, store) == Build(c, before)
      decreases Depth(c)
    {
      ExtendsShaped(before, store);
      ExtendsKeys(before, store);
      BuildableMonotone(c, before.Keys, store.Keys);
      if c !in store {
        var comps := decompositions[c];
        forall i | 0 <= i < |comps|
          ensures Build(comps[i].cp, store) == Build(comps[i].cp, before)
        {
          BuildStable(comps[i].cp, before, store);
        }
        assert seq(|comps|, i requires 0 <= i < |comps| => Build(comps[i].cp, store)) ==
               seq(|comps|, i requires 0 <= i < |comps| => Build(comps[i].cp, before));
      }
    }

    lemma ExtendsTransitive(a: map<int, Bitmap>, b: map<int, Bitmap>, c: map<int, Bitmap>)
      requires Ranked() && Extends(a, b) && Extends(b, c)
      ensures Extends(a, c)
    {
      forall k | k in c && k !in a
        ensures Buildable(k, a.Keys) && c[k] == Build(k, a)
      {
        if k !in b {
          BuildableStable(k, a, b);
          BuildStable(k, a, b);
        }
      }
    }

    /** The bitmaps of the components `comps`, all in `store`. */
    ghost function PartsOf(comps: seq<Component>, store: map<int, Bitmap>): (r: seq<Bitmap>)
      requires forall i :: 0 <= i < |comps| ==> comps[i].cp in store
      ensures |r| == |comps| && forall i :: 0 <= i < |r| ==> r[i] == store[comps[i].cp]
    {
      seq(|comps|, i requires 0 <= i < |comps| => store[comps[i].cp])
    }

    /** Every component of `c` has a supported class and is in `store`. */
    ghost predicate Gathered(c: int, store: map<int, Bitmap>)
      requires c in decompositions
    {
      forall i :: 0 <= i < |decompositions[c]| ==>
        decompositions[c][i].cls in SupportedCombiningClasses && decompositions[c][i].cp in store
    }

    /** The first `n` components of `c` have a supported class and are in `store`. */
    ghost predicate GatheredBefore(c: int, n: int, store: map<int, Bitmap>)
      requires c in decompositions && 0 <= n <= |decompositions[c]|
    {
      forall j :: 0 <= j < n ==>
        decompositions[c][j].cls in SupportedCombiningClasses && decompositions[c][j].cp in store
    }

    /** Components gathered in `store` stay gathered once component `n` is added to a store with more keys. */
    lemma GatheredBeforeStep(c: int, n: int, store: map<int, Bitmap>, more: map<int, Bitmap>)
      requires c in decompositions && 0 <= n < |decompositions[c]|
      requires GatheredBefore(c, n, store) && store.Keys <= more.Keys
      requires decompositions[c][n].cls in SupportedCombiningClasses && decompositions[c][n].cp in more
      ensures GatheredBefore(c, n, more) && GatheredBefore(c, n + 1, more)
    {
      forall j | 0 <= j < n
        ensures decompositions[c][j].cp in more
      {
        assert decompositions[c][j].cp in store.Keys;
      }
    }

    /** Once every component of `c` is gathered in a store that extends `before`, `c` is buildable on `before`. */
    lemma GatheredBuildable(c: int, before: map<int, Bitmap>, store: map<int, Bitmap>)
      requires Ranked() && Extends(before, store) && c in decompositions
      requires Gathered(c, store)
      ensures Buildable(c, before.Keys)
    {
      var comps := decompositions[c];
      forall j | 0 <= j < |comps|
        ensures Buildable(comps[j].cp, before.Keys)
      {
        BuildableStable(comps[j].cp, before, store);
      }
    }

    /** The glyph composed from the stored components of `c` is its `Build` on `before`. */
    lemma GatheredBuild(c: int, before: map<int, Bitmap>, store: map<int, Bitmap>)
      requires Ranked() && Extends(before, store) && c in decompositions && c !in before
      requires Gathered(c, store) && Buildable(c, before.Keys)
      ensures AllShaped(PartsOf(decompositions[c], store))
      ensures Composite(PartsOf(decompositions[c], store)) == Build(c, before)
    {
      var comps := decompositions[c];
      ExtendsShaped(before, store);
      var parts := PartsOf(comps, store);
      forall k | 0 <= k < |comps|
        ensures parts[k] == Build(comps[k].cp, before)
      {
        BuildStable(comps[k].cp, before, store);
      }
      assert parts == seq(|comps|, k requires 0 <= k < |comps| => Build(comps[k].cp, before));
    }

    /** Adding the `Build` of a buildable codepoint keeps a store an extension of `before`. */
    lemma ExtendsByBuild(c: int, before: map<int, Bitmap>, store: map<int, Bitmap>)
      requires Ranked() && Extends(before, store) && c !in before && Buildable(c, before.Keys)
      ensures Extends(before, store[c := Build(c, before)])
    {
    }

    /**
     * Once every component of `c` is gathered in a store that extends `before`,
     * `c` is buildable on `before`, the glyph composed from the stored
     * components is its `Build`, and adding it still extends `before`.
     */
    lemma BuildFromParts(c: int, before: map<int, Bitmap>, store: map<int, Bitmap>)
      requires Ranked() && Extends(before, store) && c in decompositions && c !in store
      requires Gathered(c, store)
      ensures Buildable(c, before.Keys)
      ensures AllShaped(PartsOf(decompositions[c], store))
      ensures Composite(PartsOf(decompositions[c], store)) == Build(c, before)
      ensures Extends(before, store[c := Build(c, before)])
    {
      GatheredBuildable(c, before, store);
      GatheredBuild(c, before, store);
      ExtendsByBuild(c, before, store);
    }

    /** A component that cannot be added, or has an unsupported class, makes `c` unbuildable. */
    lemma NotBuildable(c: int, i: int, before: map<int, Bitmap>, store: map<int, Bitmap>)
      requires Ranked() && Extends(before, store) && c in decompositions && c !in before
      requires 0 <= i < |decompositions[c]|
      requires decompositions[c][i].cls !in SupportedCombiningClasses ||
               !Buildable(decompositions[c][i].cp, store.Keys)
      ensures !Buildable(c, before.Keys)
    {
      var comp := decompositions[c][i];
      if comp.cls in SupportedCombiningClasses && Buildable(comp.cp, before.Keys) {
        ExtendsKeys(before, store);
        BuildableMonotone(comp.cp, before.Keys, store.Keys);
      }
    }

    /** The font has only gained glyphs since it had the glyph list `glyphs0` and the index `index0`. */
    ghost predicate Grown(glyphs0: seq<Glyph>, index0: map<int, Glyph>)
      reads font
    {
      GrownFrom(glyphs0, index0, font.glyphs, font.glyphsByCodepoint)
    }

    /**
     * Component `i` of `c` is where `add_glyph_to_font(c)` gave up: every
     * earlier component is in `store` with a supported class, and component
     * `i` was tried, so it is in `store` if it could be built on `keys`, but
     * either it is not there or its class is not supported.
     */
    ghost predicate FailedAt(c: int, i: int, keys: set<int>, store: map<int, Bitmap>)
      requires Ranked() && c in decompositions && 0 <= i < |decompositions[c]|
    {
      var comps := decompositions[c];
      GatheredBefore(c, i, store) &&
      (Buildable(comps[i].cp, keys) ==> comps[i].cp in store) &&
      !(comps[i].cls in SupportedCombiningClasses && comps[i].cp in store)
    }

    /**
     * `add_glyph_to_font(c)`: true, with nothing changed, when the font has `c`;
     * false, with nothing changed, when the table has no entry for it;
     * otherwise each component in turn is added (recursively) and its class
     * checked, giving up at the first that fails, with the glyphs already
     * added kept; once all pass, a new glyph "char<c>" is made from the
     * components. The result is true exactly when `c` is `Buildable` on the
     * font as it was, the font then has `c`, and every glyph added is the
     * `Build` of its codepoint on the font as it was, appended to the glyph
     * list as "char<c>". On false for a codepoint with an entry, the
     * components before the one that failed are all in the font.
     */
    method AddGlyphToFont(c: int) returns (ok: bool)
      requires Valid() && 0 <= c <= MaxUnicode
      modifies font
      ensures Valid()
      ensures font.properties == old(font.properties) && font.comments == old(font.comments)
      ensures Extends(old(font.Bitmaps()), font.Bitmaps())
      ensures forall k :: k in font.Bitmaps() && k !in old(font.Bitmaps()) ==> k in decompositions && Depth(k) <= Depth(c)
      ensures ok <==> Buildable(c, old(font.Bitmaps()).Keys)
      ensures ok <==> c in font.Bitmaps()
      ensures c in old(font.Bitmaps()) ==> unchanged(font)
      ensures c !in old(font.Bitmaps()) && c !in decompositions ==> unchanged(font)
      ensures Grown(old(font.glyphs), old(font.glyphsByCodepoint))
      ensures c !in old(font.Bitmaps()) && c in decompositions && !ok ==>
                exists i :: 0 <= i < |decompositions[c]| && FailedAt(c, i, old(font.Bitmaps()).Keys, font.Bitmaps())
      decreases Depth(c), 2
    {
      if font.HasCodepoint(c) {
        return true;
      }
      if c !in decompositions {
        return false;
      }
      ghost var before := font.Bitmaps();
      ghost var glyphs0, index0 := font.glyphs, font.glyphsByCodepoint;
      ok := AddComponents(c);
      if !ok {
        return;
      }
      ghost var store := font.Bitmaps();
      BuildFromParts(c, before, store);
      ghost var glyphs1, index1 := font.glyphs, font.glyphsByCodepoint;
      DrawComposite(c);
      GrownTransitive(glyphs0, index0, glyphs1, index1, font.glyphs, font.glyphsByCodepoint);
      assert font.Bitmaps() == store[c := Build(c, before)];
    }

    /**
     * The loop of `add_glyph_to_font` over the components of `c`: each is
     * added, then its class checked; true when all pass, false at the first
     * that fails, with the glyphs added so far kept.
     */
    method AddComponents(c: int) returns (ok: bool)
      requires Valid() && c in decompositions && c !in font.Bitmaps()
      modifies font
      ensures Valid()
      ensures font.properties == old(font.properties) && font.comments == old(font.comments)
      ensures Extends(old(font.Bitmaps()), font.Bitmaps())
      ensures forall k :: k in font.Bitmaps() && k !in old(font.Bitmaps()) ==> k in decompositions && Depth(k) < Depth(c)
      ensures c !in font.Bitmaps()
      ensures ok ==> Gathered(c, font.Bitmaps())
      ensures !ok ==> !Buildable(c, old(font.Bitmaps()).Keys)
      ensures !ok ==> exists i :: 0 <= i < |decompositions[c]| && FailedAt(c, i, old(font.Bitmaps()).Keys, font.Bitmaps())
      ensures Grown(old(font.glyphs), old(font.glyphsByCodepoint))
      decreases Depth(c), 1
    {
      ghost var before := font.Bitmaps();
      ghost var glyphs0, index0 := font.glyphs, font.glyphsByCodepoint;
      var components := decompositions[c];
      var i := 0;
      while i < |components|
        invariant 0 <= i <= |components|
        invariant Valid()
        invariant font.properties == old(font.properties) && font.comments == old(font.comments)
        invariant Extends(before, font.Bitmaps())
        invariant forall k :: k in font.Bitmaps() && k !in before ==> k in decompositions && Depth(k) < Depth(c)
        invariant GatheredBefore(c, i, font.Bitmaps())
        invariant Grown(glyphs0, index0)
      {
        ghost var current := font.Bitmaps();
        ghost var glyphs1, index1 := font.glyphs, font.glyphsByCodepoint;
        var added := AddComponent(c, i, before);
        GrownTransitive(glyphs0, index0, glyphs1, index1, font.glyphs, font.glyphsByCodepoint);
        if !added {
          forall j | 0 <= j < i
            ensures components[j].cp in font.Bitmaps()
          {
            assert components[j].cp in current.Keys;
          }
          assert FailedAt(c, i, before.Keys, font.Bitmaps());
          return false;
        }
        GatheredBeforeStep(c, i, current, font.Bitmaps());
        i := i + 1;
      }
      assert Gathered(c, font.Bitmaps());
      return true;
    }

    /**
     * One turn of that loop: component `i` of `c` is added, then its class
     * checked. It is in the font afterwards exactly when it can be built; the
     * result is true exactly when it is there and its class is supported, and
     * false means `c` cannot be built on `before`.
     */
    method AddComponent(c: int, i: int, ghost before: map<int, Bitmap>) returns (ok: bool)
      requires Valid() && c in decompositions && c !in before && 0 <= i < |decompositions[c]|
      requires Extends(before, font.Bitmaps())
      requires forall k :: k in font.Bitmaps() && k !in before ==> k in decompositions && Depth(k) < Depth(c)
      modifies font
      ensures Valid()
      ensures font.properties == old(font.properties) && font.comments == old(font.comments)
      ensures Extends(before, font.Bitmaps()) && old(font.Bitmaps()).Keys <= font.Bitmaps().Keys
      ensures forall k :: k in font.Bitmaps() && k !in before ==> k in decompositions && Depth(k) < Depth(c)
      ensures ok <==> decompositions[c][i].cls in SupportedCombiningClasses && decompositions[c][i].cp in font.Bitmaps()
      ensures Buildable(decompositions[c][i].cp, before.Keys) ==> decompositions[c][i].cp in font.Bitmaps()
      ensures !ok ==> !Buildable(c, before.Keys)
      ensures Grown(old(font.glyphs), old(font.glyphsByCodepoint))
      decreases Depth(c), 0
    {
      ghost var current := font.Bitmaps();
      var comp := decompositions[c][i];
      var built := AddGlyphToFont(comp.cp);
      ExtendsTransitive(before, current, font.Bitmaps());
      ExtendsKeys(current, font.Bitmaps());
      ExtendsKeys(before, current);
      if Buildable(comp.cp, before.Keys) {
        BuildableMonotone(comp.cp, before.Keys, current.Keys);
      }
      if !built {
        NotBuildable(c, i, before, current);
        return false;
      }
      if comp.cls !in SupportedCombiningClasses {
        NotBuildable(c, i, before, font.Bitmaps());
        return false;
      }
      return true;
    }

    /**
     * The drawing half of `add_glyph_to_font`: a new glyph "char<c>" indexed
     * under `c` and appended to the glyph list, drawn from the components; its
     * bitmap is the `Composite` of the components' bitmaps, and no other
     * codepoint's bitmap or index entry changes.
     */
    method DrawComposite(c: int)
      requires Valid() && c in decompositions && c !in font.Bitmaps() && c >= 0
      requires Gathered(c, font.Bitmaps())
      modifies font
      ensures font.properties == old(font.properties) && font.comments == old(font.comments)
      ensures font.Valid() && AllShaped(PartsOf(decompositions[c], old(font.Bitmaps())))
      ensures font.Bitmaps() == old(font.Bitmaps())[c := Composite(PartsOf(decompositions[c], old(font.Bitmaps())))]
      ensures c in font.glyphsByCodepoint && fresh(font.glyphsByCodepoint[c])
      ensures font.glyphs == old(font.glyphs) + [font.glyphsByCodepoint[c]]
      ensures font.glyphsByCodepoint == old(font.glyphsByCodepoint)[c := font.glyphsByCodepoint[c]]
      ensures font.glyphsByCodepoint[c].name == "char" + DecimalString(c) && font.glyphsByCodepoint[c].codepoint == c
      ensures Grown(old(font.glyphs), old(font.glyphsByCodepoint))
    {
      ghost var store := font.Bitmaps();
      ghost var index := font.glyphsByCodepoint;
      var components := decompositions[c];
      ghost var parts := PartsOf(components, store);
      var glyph := NewComposite(c);
      assert forall cp :: cp in index ==> index[cp] != glyph && index[cp].Value() == store[cp];
      MergeComponents(glyph, font, components, parts);
      forall cp | cp in font.Bitmaps()
        ensures font.Bitmaps()[cp] == store[c := Composite(parts)][cp]
      {
        if cp != c {
          assert index[cp].Value() == store[cp];
        }
      }
    }

    /**
     * `font.new_glyph_from_data("char%d" % ord(char), codepoint=ord(char))`,
     * every other argument at its default: an empty glyph appended to the list
     * and indexed under `c`, which was free.
     */
    method NewComposite(c: int) returns (glyph: Glyph)
      requires font.Valid() && c >= 0 && c !in font.glyphsByCodepoint
      modifies font
      ensures fresh(glyph) && glyph.Value() == Empty
      ensures glyph.name == "char" + DecimalString(c) && glyph.codepoint == c
      ensures font.properties == old(font.properties) && font.comments == old(font.comments)
      ensures font.glyphs == old(font.glyphs) + [glyph]
      ensures font.glyphsByCodepoint == old(font.glyphsByCodepoint)[c := glyph]
      ensures font.Valid() && Grown(old(font.glyphs), old(font.glyphsByCodepoint))
    {
      var r := font.NewGlyphFromData("char" + DecimalString(c), None, 0, 0, 0, 0, 0, Some(c));
      glyph := r.value;
      GrownByOne(old(font.glyphs), old(font.glyphsByCodepoint), glyph);
    }

    /**
     * `add_decomposable_glyphs_to_font`: `add_glyph_to_font` for every codepoint
     * of the table, in any order. Afterwards the font has exactly its old
     * codepoints and the buildable ones of the table, each new one built as
     * `Build` on the font as it was, so the order does not matter.
     */
    method AddDecomposableGlyphsToFont()
      requires Valid()
      modifies font
      ensures Valid()
      ensures font.properties == old(font.properties) && font.comments == old(font.comments)
      ensures Extends(old(font.Bitmaps()), font.Bitmaps())
      ensures forall k :: k in font.Bitmaps() <==>
                k in old(font.Bitmaps()) || (k in decompositions && Buildable(k, old(font.Bitmaps()).Keys))
      ensures Grown(old(font.glyphs), old(font.glyphsByCodepoint))
    {
      ghost var before := font.Bitmaps();
      ghost var glyphs0, index0 := font.glyphs, font.glyphsByCodepoint;
      var todo := decompositions.Keys;
      while todo != {}
        invariant todo <= decompositions.Keys
        invariant Valid()
        invariant font.properties == old(font.properties) && font.comments == old(font.comments)
        invariant Extends(before, font.Bitmaps())
        invariant forall k :: k in font.Bitmaps() && k !in before ==> k in decompositions
        invariant forall k :: k in decompositions && k !in todo && Buildable(k, before.Keys) ==> k in font.Bitmaps()
        invariant Grown(glyphs0, index0)
        decreases |todo|
      {
        ghost var some := SomeCodepoint(todo);
        var c :| c in todo;
        ghost var current := font.Bitmaps();
        ghost var glyphs1, index1 := font.glyphs, font.glyphsByCodepoint;
        var built := AddGlyphToFont(c);
        GrownTransitive(glyphs0, index0, glyphs1, index1, font.glyphs, font.glyphsByCodepoint);
        ExtendsTransitive(before, current, font.Bitmaps());
        if Buildable(c, before.Keys) {
          ExtendsKeys(before, current);
          BuildableMonotone(c, before.Keys, current.Keys);
        }
        todo := todo - {c};
      }
    }
  }
}
