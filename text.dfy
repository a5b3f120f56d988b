/**
 * The handful of Python string operations the font code leans on, with the
 * semantics of Python 2 byte strings: `strip()`, `split(sep)`, `split(sep, 1)`,
 * `split()`, `sep.join(parts)`, `int(s)`, `int(s, 16)`, `str(n)` and `"%*X"`.
 */
module Text {
  import opened Wrappers
  import opened Bits

  /** Python's `isspace()` for one byte: space, tab, newline, return, VT, FF. */
  predicate IsSpace(c: char)
  {
    c == ' ' || c == '\t' || c == '\n' || c == '\r' || c as int == 11 || c as int == 12
  }

  function Spaces(n: nat): (r: string)
    ensures |r| == n && forall i :: 0 <= i < n ==> r[i] == ' '
  {
    seq(n, _ => ' ')
  }

  /** `s.lstrip()` */
  function StripLeft(s: string): (r: string)
    ensures |r| <= |s|
    ensures r == [] || !IsSpace(r[0])
    ensures forall i :: 0 <= i < |s| - |r| ==> IsSpace(s[i])
  {
    if |s| > 0 && IsSpace(s[0]) then StripLeft(s[1..]) else s
  }

  /** `s.rstrip()` */
  function StripRight(s: string): (r: string)
    ensures |r| <= |s| && (r == [] || r[0] == s[0])
    ensures r == [] || !IsSpace(r[|r| - 1])
    ensures forall i :: |r| <= i < |s| ==> IsSpace(s[i])
  {
    if |s| > 0 && IsSpace(s[|s| - 1]) then StripRight(s[..|s| - 1]) else s
  }

  /** `s.strip()` */
  function Strip(s: string): (r: string)
    ensures r == [] || (!IsSpace(r[0]) && !IsSpace(r[|r| - 1]))
  {
    StripRight(StripLeft(s))
  }

  /** Stripping leaves a string alone that neither starts nor ends with white space. */
  lemma StripTrimmed(t: string)
    requires t == [] || (!IsSpace(t[0]) && !IsSpace(t[|t| - 1]))
    ensures Strip(t) == t
  {
  }

  lemma {:induction false} StripLeftSpaces(k: nat, t: string)
    ensures StripLeft(Spaces(k) + t) == StripLeft(t)
  {
    if k > 0 {
      var s := Spaces(k) + t;
      assert s[0] == ' ' && IsSpace(s[0]);
      assert StripLeft(s) == StripLeft(s[1..]);
      assert s[1..] == Spaces(k - 1) + t;
      StripLeftSpaces(k - 1, t);
    } else {
      assert Spaces(k) + t == t;
    }
  }

  lemma {:induction false} StripRightSpaces(t: string, k: nat)
    ensures StripRight(t + Spaces(k)) == StripRight(t)
  {
    if k > 0 {
      var s := t + Spaces(k);
      assert s[|s| - 1] == ' ' && IsSpace(s[|s| - 1]);
      assert StripRight(s) == StripRight(s[..|s| - 1]);
      assert s[..|s| - 1] == t + Spaces(k - 1);
      StripRightSpaces(t, k - 1);
    } else {
      assert t + Spaces(k) == t;
    }
  }

  /** Stripping ignores leading blanks. */
  lemma StripSpacesPrefix(k: nat, t: string)
    ensures Strip(Spaces(k) + t) == Strip(t)
  {
    StripLeftSpaces(k, t);
  }

  /** Stripping ignores trailing blanks. */
  lemma StripSpacesSuffix(t: string, k: nat)
    requires t == [] || !IsSpace(t[0])
    ensures Strip(t + Spaces(k)) == Strip(t)
  {
    if t == [] {
      StripLeftSpaces(k, t);
      assert Spaces(k) + t == t + Spaces(k);
    } else {
      var s := t + Spaces(k);
      assert s[0] == t[0];
      assert StripLeft(s) == s;
      assert StripLeft(t) == t;
      StripRightSpaces(t, k);
    }
  }

  /** `sep.join(parts)` */
  function Join(parts: seq<string>, sep: char): string
  {
    if |parts| == 0 then ""
    else if |parts| == 1 then parts[0]
    else parts[0] + [sep] + Join(parts[1..], sep)
  }

  /** `s.split(sep)`: never empty. */
  function SplitOn(s: string, sep: char): (r: seq<string>)
    ensures |r| >= 1
  {
    if |s| == 0 then [""]
    else
      var rest := SplitOn(s[1..], sep);
      if s[0] == sep then [""] + rest
      else [[s[0]] + rest[0]] + rest[1..]
  }

  /** No piece of `s.split(sep)` holds `sep`, and joining the pieces with `sep` gives `s` back. */
  lemma {:induction false} SplitOnSpec(s: string, sep: char)
    ensures forall i :: 0 <= i < |SplitOn(s, sep)| ==> sep !in SplitOn(s, sep)[i]
    ensures Join(SplitOn(s, sep), sep) == s
    decreases |s|
  {
    if |s| > 0 {
      var rest := SplitOn(s[1..], sep);
      SplitOnSpec(s[1..], sep);
      var r := SplitOn(s, sep);
      if s[0] == sep {
        assert r[1..] == rest;
      } else {
        assert r[1..] == rest[1..];
        assert Join(rest, sep) == if |rest| == 1 then rest[0] else rest[0] + [sep] + Join(rest[1..], sep);
        assert s == [s[0]] + s[1..];
        forall i | 0 <= i < |r| ensures sep !in r[i] {
          if i > 0 {
            assert r[i] == rest[i];
          }
        }
      }
    }
  }

  /** Splitting a string made by joining separator-free pieces recovers the pieces. */
  lemma {:induction false} SplitJoin(parts: seq<string>, sep: char)
    requires |parts| >= 1
    requires forall i :: 0 <= i < |parts| ==> sep !in parts[i]
    ensures SplitOn(Join(parts, sep), sep) == parts
    decreases |parts|, |parts[0]|
  {
    var p := parts[0];
    if |p| == 0 {
      if |parts| > 1 {
        var j := Join(parts, sep);
        assert j == [sep] + Join(parts[1..], sep);
        assert j[1..] == Join(parts[1..], sep);
        SplitJoin(parts[1..], sep);
        assert [""] + parts[1..] == parts;
      }
    } else {
      var tail := [p[1..]] + parts[1..];
      assert tail[1..] == parts[1..];
      SplitJoin(tail, sep);
      var j := Join(parts, sep);
      JoinShift(parts, sep);
      assert j[1..] == Join(tail, sep);
      assert p[0] != sep by { assert p[0] in p; }
      assert SplitOn(j, sep) == [[p[0]] + tail[0]] + tail[1..];
      assert p == [p[0]] + p[1..];
      assert [[p[0]] + p[1..]] + parts[1..] == parts;
    }
  }

  /** Joining pieces whose first is not empty starts with that piece's first character. */
  lemma JoinShift(parts: seq<string>, sep: char)
    requires |parts| >= 1 && |parts[0]| > 0
    ensures Join(parts, sep) == [parts[0][0]] + Join([parts[0][1..]] + parts[1..], sep)
  {
    var p, tail := parts[0], [parts[0][1..]] + parts[1..];
    assert tail[1..] == parts[1..];
    assert p == [p[0]] + p[1..];
  }

  /** Index of the first `c` in `s`. */
  function IndexOf(s: string, c: char): (i: nat)
    requires c in s
    ensures i < |s| && s[i] == c && c !in s[..i]
  {
    if s[0] == c then 0 else 1 + IndexOf(s[1..], c)
  }

  /**
   * `key, value = s.split(sep, 1)`: `None` when `s` has no `sep`, the unpacking
   * error; otherwise the text before the first `sep` and everything after it.
   */
  function SplitOnce(s: string, sep: char): (r: Option<(string, string)>)
    ensures r.None? <==> sep !in s
    ensures r.Some? ==> sep !in r.value.0 && s == r.value.0 + [sep] + r.value.1
  {
    if sep !in s then None
    else
      var i := IndexOf(s, sep);
      assert s == s[..i] + [sep] + s[i + 1..];
      Some((s[..i], s[i + 1..]))
  }

  /** The leading run of non-blank characters of `s`. */
  function Word(s: string): (w: string)
    ensures |w| <= |s| && w == s[..|w|]
    ensures forall i :: 0 <= i < |w| ==> !IsSpace(w[i])
    ensures |w| == |s| || IsSpace(s[|w|])
  {
    if |s| == 0 || IsSpace(s[0]) then "" else [s[0]] + Word(s[1..])
  }

  /** A non-empty run of non-blank characters. */
  predicate IsWord(w: string)
  {
    |w| > 0 && forall i :: 0 <= i < |w| ==> !IsSpace(w[i])
  }

  /** `s.split()`: the maximal runs of non-blank characters, in order. */
  function SplitWords(s: string): (r: seq<string>)
    ensures forall i :: 0 <= i < |r| ==> IsWord(r[i])
    decreases |s|
  {
    var t := StripLeft(s);
    if t == [] then []
    else
      var w := Word(t);
      assert IsWord(w) by {
        assert !IsSpace(t[0]);
        assert Word(t) == [t[0]] + Word(t[1..]);
      }
      var rest := SplitWords(t[|w|..]);
      var r := [w] + rest;
      assert forall i :: 1 <= i < |r| ==> r[i] == rest[i - 1];
      r
  }

  lemma {:induction false} WordOf(w: string, rest: string)
    requires forall i :: 0 <= i < |w| ==> !IsSpace(w[i])
    requires rest == [] || IsSpace(rest[0])
    ensures Word(w + rest) == w
    decreases |w|
  {
    if |w| > 0 {
      assert (w + rest)[1..] == w[1..] + rest;
      WordOf(w[1..], rest);
    }
  }

  /** Splitting a single word gives that word. */
  lemma SplitWordsSingle(w: string)
    requires IsWord(w)
    ensures SplitWords(w) == [w]
  {
    WordOf(w, []);
    assert w + [] == w;
    assert w[|w|..] == [];
  }

  /** Splitting `w + " " + rest` for a word `w` gives `w`, then the words of `rest`. */
  lemma SplitWordsCons(w: string, rest: string)
    requires IsWord(w)
    ensures SplitWords(w + " " + rest) == [w] + SplitWords(rest)
  {
    var s := w + " " + rest;
    assert StripLeft(s) == s;
    WordOf(w, " " + rest);
    assert w + (" " + rest) == s;
    assert s[|w|..] == " " + rest;
    assert StripLeft(" " + rest) == StripLeft(rest) by {
      assert (" " + rest)[1..] == rest;
    }
  }

  // ----- hexadecimal -----

  predicate IsHexDigit(c: char)
  {
    '0' <= c <= '9' || 'a' <= c <= 'f' || 'A' <= c <= 'F'
  }

  function HexDigitValue(c: char): (d: nat)
    requires IsHexDigit(c)
    ensures d < 16
  {
    if '0' <= c <= '9' then c as int - '0' as int
    else if 'a' <= c <= 'f' then c as int - 'a' as int + 10
    else c as int - 'A' as int + 10
  }

  /** Upper-case hex digit, as `%X` prints it. */
  function HexDigit(d: nat): (c: char)
    requires d < 16
    ensures IsHexDigit(c) && HexDigitValue(c) == d
  {
    if d < 10 then ('0' as int + d) as char else ('A' as int + d - 10) as char
  }

  predicate AllHexDigits(t: string)
  {
    forall i :: 0 <= i < |t| ==> IsHexDigit(t[i])
  }

  /** The number a string of hex digits denotes, most significant digit first. */
  function HexValue(t: string): nat
    requires AllHexDigits(t)
  {
    if t == [] then 0 else 16 * HexValue(t[..|t| - 1]) + HexDigitValue(t[|t| - 1])
  }

  /** `"%X" % n`: the shortest upper-case hex numeral of `n`. */
  function HexString(n: nat): (r: string)
    ensures |r| >= 1 && AllHexDigits(r)
  {
    if n < 16 then [HexDigit(n)] else HexString(n / 16) + [HexDigit(n % 16)]
  }

  /** `int(s, 16)`, accepting surrounding white space and at least one hex digit. */
  function ParseHex(s: string): Option<nat>
  {
    var t := Strip(s);
    if |t| > 0 && AllHexDigits(t) then Some(HexValue(t)) else None
  }

  /** `"%*X" % (width, n)`: right-justified in `width` columns, left-justified for a negative width. */
  function FormatHex(width: int, n: nat): string
  {
    var h := HexString(n);
    if width >= 0 then (if |h| >= width then h else Spaces(width - |h|) + h)
    else (if |h| >= -width then h else h + Spaces(-width - |h|))
  }

  lemma {:induction false} HexValueOfString(n: nat)
    ensures HexValue(HexString(n)) == n
  {
    if n >= 16 {
      var h := HexString(n);
      assert h[..|h| - 1] == HexString(n / 16);
      HexValueOfString(n / 16);
    }
  }

  lemma Pow2Times16(k: nat)
    ensures Pow2(4 * k + 4) == 16 * Pow2(4 * k)
  {
    Pow2Add(4 * k, 4);
  }

  /** `k` hex digits denote a number below `2^(4k)`. */
  lemma {:induction false} HexValueBound(t: string)
    requires AllHexDigits(t)
    ensures HexValue(t) < Pow2(4 * |t|)
  {
    if t != [] {
      var p := t[..|t| - 1];
      HexValueBound(p);
      Pow2Times16(|p|);
    }
  }

  /** A number below `2^(4k)` (k >= 1) needs at most `k` hex digits. */
  lemma {:induction false} HexStringLength(n: nat, k: nat)
    requires k >= 1 && n < Pow2(4 * k)
    ensures |HexString(n)| <= k
  {
    if n >= 16 && k > 1 {
      Pow2Times16(k - 1);
      HexStringLength(n / 16, k - 1);
    }
  }

  /** Whatever the column width, `int(("%*X" % (width, n)), 16) == n`. */
  lemma HexRoundTrip(width: int, n: nat)
    ensures ParseHex(FormatHex(width, n)) == Some(n)
  {
    var h := HexString(n);
    HexValueOfString(n);
    assert !IsSpace(h[0]) && !IsSpace(h[|h| - 1]);
    StripTrimmed(h);
    var s := FormatHex(width, n);
    if width >= 0 && |h| < width {
      assert s == Spaces(width - |h|) + h;
      StripSpacesPrefix(width - |h|, h);
    } else if width < 0 && |h| < -width {
      assert s == h + Spaces(-width - |h|);
      StripSpacesSuffix(h, -width - |h|);
    } else {
      assert s == h;
    }
    assert Strip(s) == h;
  }

  /** The length of `"%*X" % (width, n)`. */
  lemma FormatHexLength(width: int, n: nat)
    ensures |FormatHex(width, n)| == if |HexString(n)| >= (if width >= 0 then width else -width)
                                     then |HexString(n)| else if width >= 0 then width else -width
  {
  }

  // ----- decimal -----

  predicate IsDigit(c: char)
  {
    '0' <= c <= '9'
  }

  predicate AllDigits(t: string)
  {
    forall i :: 0 <= i < |t| ==> IsDigit(t[i])
  }

  function DecValue(t: string): nat
    requires AllDigits(t)
  {
    if t == [] then 0 else 10 * DecValue(t[..|t| - 1]) + (t[|t| - 1] as int - '0' as int)
  }

  function DecString(n: nat): (r: string)
    ensures |r| >= 1 && AllDigits(r)
  {
    if n < 10 then [('0' as int + n) as char] else DecString(n / 10) + [('0' as int + n % 10) as char]
  }

  /** `str(n)` for an integer. */
  function DecimalString(n: int): (r: string)
    ensures |r| >= 1
  {
    if n < 0 then "-" + DecString(-n) else DecString(n)
  }

  /** `int(s)`: optional blanks, an optional sign, at least one decimal digit. */
  function ParseInt(s: string): Option<int>
  {
    var t := Strip(s);
    if |t| > 0 && (t[0] == '-' || t[0] == '+') then
      var d := t[1..];
      var v: int := if |d| > 0 && AllDigits(d) then DecValue(d) else 0;
      if |d| > 0 && AllDigits(d) then Some(if t[0] == '-' then -v else v) else None
    else if |t| > 0 && AllDigits(t) then Some(DecValue(t))
    else None
  }

  lemma {:induction false} DecValueOfString(n: nat)
    ensures DecValue(DecString(n)) == n
  {
    if n >= 10 {
      var d := DecString(n);
      assert d[..|d| - 1] == DecString(n / 10);
      DecValueOfString(n / 10);
    }
  }

  /** `int(str(n)) == n` for every integer. */
  lemma ParseIntRoundTrip(n: int)
    ensures ParseInt(DecimalString(n)) == Some(n)
  {
    if n < 0 {
      ParseNegative(-n);
    } else {
      var s := DecimalString(n);
      DecValueOfString(n);
      assert IsDigit(s[0]) && IsDigit(s[|s| - 1]);
      StripTrimmed(s);
    }
  }

  /** `int("-" + str(m)) == -m` for a positive `m`. */
  lemma ParseNegative(m: int)
    requires m > 0
    ensures ParseInt("-" + DecString(m)) == Some(-m)
  {
    var d := DecString(m);
    var s := "-" + d;
    DecValueOfString(m);
    assert s[1..] == d;
    assert IsDigit(d[|d| - 1]) && s[|s| - 1] == d[|d| - 1];
    StripTrimmed(s);
  }
}
