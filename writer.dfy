/**
 * `writer.quote_property_value`: how a property value is written after its
 * key on a BDF property line, and how that text reads back through the
 * reader's `parse_property`.
 */
module Writer {
  import opened Wrappers
  import opened Text
  import opened Model
  import opened Reader

  /** The number of double quotes in `s`. */
  function Quotes(s: string): nat
  {
    if s == [] then 0 else (if s[0] == '"' then 1 else 0) + Quotes(s[1..])
  }

  /** `s.replace('"', '""')` */
  function Double(s: string): (r: string)
    ensures |r| == |s| + Quotes(s)
  {
    if s == [] then []
    else if s[0] == '"' then "\"\"" + Double(s[1..])
    else [s[0]] + Double(s[1..])
  }

  /** `str(val)` for a value that is not an `int`. */
  function ValueText(v: PropValue): string
  {
    match v
    case Int(n) => DecimalString(n)
    case Str(s) => s
    case Real(t) => t
  }

  /**
   * `quote_property_value(val)`: an `int` as its decimal digits; anything
   * else, a `long` included, as its text between double quotes with every
   * double quote inside doubled.
   */
  function QuotePropertyValue(v: PropValue): (r: string)
    ensures !(v.Int? && IsMachineInt(v.i)) ==>
      |r| == |ValueText(v)| + 2 + Quotes(ValueText(v)) && r[0] == '"' && r[|r| - 1] == '"'
  {
    if v.Int? && IsMachineInt(v.i) then DecimalString(v.i)
    else "\"" + Double(ValueText(v)) + "\""
  }

  /** Undoubling the doubled text gives the text back. */
  lemma {:induction false} UndoubleDouble(s: string)
    ensures Undouble(Double(s)) == s
  {
    if s != [] {
      UndoubleDouble(s[1..]);
      if s[0] == '"' {
        assert Double(s) == "\"\"" + Double(s[1..]);
        assert Double(s)[2..] == Double(s[1..]);
      } else {
        var d := Double(s);
        assert d == [s[0]] + Double(s[1..]);
        assert d[1..] == Double(s[1..]);
        if |d| >= 2 {
          assert d[0] != '"';
        }
      }
    }
  }

  /** What a written value reads back as: an `int` and a string are themselves; a `long` and a real number become their text. */
  function ReadBack(v: PropValue): PropValue
  {
    if (v.Int? && IsMachineInt(v.i)) || v.Str? then v else Str(ValueText(v))
  }

  /** `parse_property` of a written value is what it reads back as. */
  lemma ParseQuoted(v: PropValue)
    ensures ParseProperty(QuotePropertyValue(v)) == Success(ReadBack(v))
  {
    if v.Int? && IsMachineInt(v.i) {
      IntPropertyValue(v.i);
    } else {
      QuotedPropertyValue(Double(ValueText(v)));
      UndoubleDouble(ValueText(v));
    }
  }

  /** The last character of a written value is a digit or a double quote, never a blank. */
  lemma QuotedEnd(v: PropValue)
    ensures var q := QuotePropertyValue(v); q != [] && (IsDigit(q[|q| - 1]) || q[|q| - 1] == '"')
  {
    var q := QuotePropertyValue(v);
    if v.Int? && IsMachineInt(v.i) {
      if v.i < 0 {
        assert q[|q| - 1] == DecString(-v.i)[|DecString(-v.i)| - 1];
      }
    }
  }

  /**
   * A property line as the writer lays it out, `key value`, reads back
   * through `_read_property` as the key and what `parse_property` makes of
   * the value.
   */
  lemma PropertyLineRoundTrip(key: string, v: PropValue)
    requires key != [] && ' ' !in key && !IsSpace(key[0])
    ensures PropertyLine(key + " " + QuotePropertyValue(v)) ==
      Success((key, ReadBack(v)))
  {
    QuotedEnd(v);
    PropertySplit(key, QuotePropertyValue(v));
    ParseQuoted(v);
  }

  /** A string property survives a write and a read unchanged, double quotes and all. */
  lemma StringPropertyRoundTrip(key: string, s: string)
    requires key != [] && ' ' !in key && !IsSpace(key[0])
    ensures PropertyLine(key + " " + QuotePropertyValue(Str(s))) == Success((key, Str(s)))
  {
    PropertyLineRoundTrip(key, Str(s));
  }
}
