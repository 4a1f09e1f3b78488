/** A resistor as a sequence of colour bands: construction from text or from
    bands, access to the bands, and decoding the resistance (`Resistor`,
    `from_str`, `with_bands`, `get_bands`, `get_value`). */
module Resistors {
  import Text
  import opened BandColors

  /** The bands, read left to right. The field is set once, by `FromStr` or
      `WithBands`, and never changed. */
  datatype Resistor = Resistor(bands: seq<BandColor>)

  /** What both constructors guarantee: at least three bands. No upper bound
      is checked. */
  predicate Valid(r: Resistor) {
    |r.bands| >= MinBands
  }

  /** The pieces `from_str` hands to `get_bands`: the input trimmed, then
      split on every single space. */
  function Tokens(s: string): seq<string> {
    Text.Split(Text.Trim(s))
  }

  /** `Resistor::from_str`: the bands `get_bands` makes of the tokens, or its
      error passed on unchanged. */
  function FromStr(s: string): (r: Result<Resistor>)
    ensures r.Ok? <==> (|Tokens(s)| >= MinBands &&
      forall i :: 0 <= i < |Tokens(s)| ==> BandColors.FromStr(Tokens(s)[i]).Ok?)
    ensures r.Ok? ==> (Valid(r.value) && |r.value.bands| == |Tokens(s)| &&
      forall i :: 0 <= i < |Tokens(s)| ==> BandColors.FromStr(Tokens(s)[i]) == Ok(r.value.bands[i]))
    ensures r.Err? ==> r.error == ParseBands(Tokens(s)).error
  {
    var bandColors := Text.Split(Text.Trim(s));
    match ParseBands(bandColors)
    case Ok(bands) => Ok(Resistor(bands))
    case Err(why) => Err(why)
  }

  /** `Resistor::get_bands`: the stored bands. */
  function GetBands(r: Resistor): seq<BandColor> {
    r.bands
  }

  /** `Resistor::with_bands`: fewer than three bands is an error carrying
      the count; otherwise the bands are kept as given, however many. */
  function WithBands(bands: seq<BandColor>): (r: Result<Resistor>)
    ensures r.Ok? <==> |bands| >= MinBands
    ensures r.Ok? ==> Valid(r.value) && GetBands(r.value) == bands
    ensures r.Err? ==> r.error == InsufficientBands(|bands|)
  {
    if |bands| < MinBands then Err(InsufficientBands(|bands|)) else Ok(Resistor(bands))
  }

  /** 10 to the power `n`. */
  function Pow10(n: nat): (p: nat)
    ensures p >= 1
  {
    if n == 0 then 1 else 10 * Pow10(n - 1)
  }

  lemma {:induction false} Pow10Monotone(m: nat, n: nat)
    requires m <= n
    ensures Pow10(m) <= Pow10(n)
    decreases n
  {
    if m < n {
      Pow10Monotone(m, n - 1);
    }
  }

  /** The number whose decimal digits, most significant first, are the
      digits of `ds`. */
  function DecimalValue(ds: seq<BandColor>): nat {
    if |ds| == 0 then 0 else 10 * DecimalValue(ds[..|ds| - 1]) + Digit(ds[|ds| - 1])
  }

  /** How many leading bands are significant figures: two on a 3- or 4-band
      resistor, three on a 5- or 6-band one. The band after them is the
      multiplier. */
  function SignificantCount(n: nat): nat {
    if n <= 4 then 2 else 3
  }

  lemma DecimalValueShort(b: seq<BandColor>)
    requires |b| >= 3
    ensures DecimalValue(b[..2]) == 10 * Digit(b[0]) + Digit(b[1])
    ensures DecimalValue(b[..3]) == 100 * Digit(b[0]) + 10 * Digit(b[1]) + Digit(b[2])
  {
    assert b[..1][..0] == [];
    assert DecimalValue(b[..1]) == Digit(b[0]);
    assert b[..2][..1] == b[..1];
    assert DecimalValue(b[..2]) == 10 * Digit(b[0]) + Digit(b[1]);
    assert b[..3][..2] == b[..2];
  }

  /** `Resistor::get_value`: the first two bands (3 or 4 bands) or first
      three (5 or 6 bands) as a number, times ten to the power of the next
      band. The Rust `get_value` panics on any other band count; that is the
      precondition. */
  function GetValue(r: Resistor): nat
    requires 3 <= |r.bands| <= 6
  {
    var b := r.bands;
    var (value, multiplier) :=
      if |b| == 3 || |b| == 4 then
        (Digit(b[0]) * 10 + Digit(b[1]), Digit(b[2]))
      else
        (Digit(b[0]) * 100 + Digit(b[1]) * 10 + Digit(b[2]), Digit(b[3]));
    var scale := Pow10(multiplier);
    assert value * scale >= 0 by {
      assert value >= 0 && scale >= 1;
    }
    value * scale
  }

  /** The value is the significant-figure bands read as a decimal number,
      times ten to the power of the multiplier band that follows them. */
  lemma GetValueDecimal(r: Resistor)
    requires 3 <= |r.bands| <= 6
    ensures var k := SignificantCount(|r.bands|);
      GetValue(r) == DecimalValue(r.bands[..k]) * Pow10(Digit(r.bands[k]))
  {
    DecimalValueShort(r.bands);
  }

  /** Bands after the multiplier do not change the value: two resistors of
      the same kind (3/4 or 5/6 bands) that agree up to the multiplier have
      the same value. */
  lemma TrailingBandsIgnored(a: Resistor, b: Resistor)
    requires 3 <= |a.bands| <= 6 && 3 <= |b.bands| <= 6
    requires SignificantCount(|a.bands|) == SignificantCount(|b.bands|)
    requires a.bands[..SignificantCount(|a.bands|) + 1] == b.bands[..SignificantCount(|b.bands|) + 1]
    ensures GetValue(a) == GetValue(b)
  {
    var k := SignificantCount(|a.bands|);
    assert a.bands[..k] == a.bands[..k + 1][..k];
    assert b.bands[..k] == b.bands[..k + 1][..k];
    assert a.bands[k] == a.bands[..k + 1][k];
    assert b.bands[k] == b.bands[..k + 1][k];
  }

  /** The value never exceeds 999 * 10^9, three nines times the largest
      multiplier. */
  lemma GetValueBound(r: Resistor)
    requires 3 <= |r.bands| <= 6
    ensures GetValue(r) <= 999 * Pow10(9)
  {
    var k := SignificantCount(|r.bands|);
    var b := r.bands;
    DecimalValueShort(b);
    Pow10Monotone(Digit(b[k]), 9);
    assert DecimalValue(b[..k]) <= 999;
    MulMonotone(DecimalValue(b[..k]), 999, Pow10(Digit(b[k])), Pow10(9));
  }

  lemma MulMonotone(a: nat, a': nat, b: nat, b': nat)
    requires a <= a' && b <= b'
    ensures a * b <= a' * b'
  {
    assert a * b <= a' * b;
    assert a' * b <= a' * b';
  }

  /** Whether a value fits the `u32` that the Rust `get_value` returns. */
  predicate FitsU32(n: nat) {
    n < 0x1_0000_0000
  }

  /** The intermediate values of the Rust `get_value` always fit `u32`: the
      significant figures are at most 999 and the multiplier at most 10^9;
      only the final product can overflow. With Violet (10^7) on a 3- or
      4-band resistor and Blue (10^6) on a 5- or 6-band one the product
      always fits; `NextMultiplierOverflows` shows that the next multiplier
      up can overflow. */
  lemma GetValueFitsU32(r: Resistor)
    requires 3 <= |r.bands| <= 6
    ensures var k := SignificantCount(|r.bands|);
      FitsU32(DecimalValue(r.bands[..k])) && FitsU32(Pow10(Digit(r.bands[k])))
    ensures |r.bands| <= 4 && Digit(r.bands[2]) <= 7 ==> FitsU32(GetValue(r))
    ensures |r.bands| >= 5 && Digit(r.bands[3]) <= 6 ==> FitsU32(GetValue(r))
  {
    var k := SignificantCount(|r.bands|);
    var b := r.bands;
    DecimalValueShort(b);
    Pow10Monotone(Digit(b[k]), 9);
    assert Pow10(9) == 1000000000;
    if |b| <= 4 && Digit(b[2]) <= 7 {
      Pow10Monotone(Digit(b[2]), 7);
      assert Pow10(7) == 10000000;
      MulMonotone(DecimalValue(b[..2]), 99, Pow10(Digit(b[2])), Pow10(7));
    }
    if |b| >= 5 && Digit(b[3]) <= 6 {
      Pow10Monotone(Digit(b[3]), 6);
      assert Pow10(6) == 1000000;
      MulMonotone(DecimalValue(b[..3]), 999, Pow10(Digit(b[3])), Pow10(6));
    }
  }

  /** "white white white" is a valid resistor whose value, 99 * 10^9, does
      not fit `u32`. */
  lemma WhiteWhiteWhiteExceedsU32()
    ensures GetValue(Resistor([White, White, White])) == 99000000000
    ensures !FitsU32(GetValue(Resistor([White, White, White])))
  {
  }

  /** The bound in `GetValueFitsU32` is tight: Grey (10^8) on a 3-band
      resistor and Violet (10^7) on a 5-band one give values, 99 * 10^8 and
      999 * 10^7, that do not fit `u32`. */
  lemma NextMultiplierOverflows()
    ensures GetValue(Resistor([White, White, Grey])) == 9900000000
    ensures !FitsU32(GetValue(Resistor([White, White, Grey])))
    ensures GetValue(Resistor([White, White, White, Violet, Brown])) == 9990000000
    ensures !FitsU32(GetValue(Resistor([White, White, White, Violet, Brown])))
  {
    assert Pow10(7) == 10000000;
    assert Pow10(8) == 100000000;
  }

  /** The colour names of the bands, in order. */
  function Names(bands: seq<BandColor>): seq<string> {
    if |bands| == 0 then [] else [Name(bands[0])] + Names(bands[1..])
  }

  lemma {:induction false} NamesAt(bands: seq<BandColor>)
    ensures |Names(bands)| == |bands|
    ensures forall i :: 0 <= i < |bands| ==> Names(bands)[i] == Name(bands[i])
    decreases |bands|
  {
    if |bands| > 0 {
      NamesAt(bands[1..]);
    }
  }

  /** The left inverse of `FromStr`: the bands' names joined by single
      spaces. */
  function Format(bands: seq<BandColor>): string {
    Text.Join(Names(bands))
  }

  /** Non-empty words without spaces whose outer ends are not whitespace:
      what the tokens of a resistor string look like. */
  predicate Words(words: seq<string>) {
    && |words| >= 1
    && (forall i :: 0 <= i < |words| ==> |words[i]| > 0 && ' ' !in words[i])
    && !Text.IsWhitespace(words[0][0])
    && !Text.IsWhitespace(words[|words| - 1][|words[|words| - 1]| - 1])
  }

  /** Such words, joined by single spaces, are exactly the tokens of the
      joined string. */
  lemma TokensJoin(words: seq<string>)
    requires Words(words)
    ensures Tokens(Text.Join(words)) == words
  {
    var s := Text.Join(words);
    Text.JoinEnds(words);
    Text.TrimPadded("", s, "");
    assert "" + s + "" == s;
    Text.SplitJoin(words);
  }

  /** The formatted bands split back into their names. */
  lemma TokensFormat(bands: seq<BandColor>)
    requires |bands| >= 1
    ensures Tokens(Format(bands)) == Names(bands)
  {
    NamesAreWords(bands);
    TokensJoin(Names(bands));
  }

  /** The names of the bands are words in that sense. */
  lemma NamesAreWords(bands: seq<BandColor>)
    requires |bands| >= 1
    ensures Words(Names(bands))
  {
    var names := Names(bands);
    NamesAt(bands);
    forall i | 0 <= i < |names|
      ensures |names[i]| > 0 && ' ' !in names[i]
    {
      NameIsWord(bands[i]);
    }
    NameIsWord(bands[0]);
    NameIsWord(bands[|bands| - 1]);
  }

  /** Parsing the formatted bands gives back the same resistor, exactly as
      `with_bands` builds it. */
  lemma FromStrFormat(bands: seq<BandColor>)
    requires |bands| >= MinBands
    ensures FromStr(Format(bands)) == Ok(Resistor(bands))
    ensures FromStr(Format(bands)) == WithBands(bands)
  {
    var names := Names(bands);
    NamesAt(bands);
    TokensFormat(bands);
    forall i | 0 <= i < |names|
      ensures BandColors.FromStr(names[i]) == Ok(bands[i])
    {
      FromStrName(bands[i]);
    }
    ParseBandsAllParsed(names, bands);
  }

  /** Any string that spells the band names with single spaces between them
      parses to those bands. */
  lemma FromStrNames(s: string, words: seq<string>, bands: seq<BandColor>)
    requires |bands| >= MinBands && |words| == |bands|
    requires forall i :: 0 <= i < |bands| ==> words[i] == Name(bands[i])
    requires s == Text.Join(words)
    ensures FromStr(s) == Ok(Resistor(bands))
  {
    NamesAt(bands);
    assert words == Names(bands);
    FromStrFormat(bands);
  }

  /** Two adjacent spaces inside the trimmed input make an empty token,
      which is no colour, so parsing fails. */
  lemma FromStrDoubleSpace(s: string, i: nat)
    requires i + 1 < |Text.Trim(s)| && Text.Trim(s)[i] == ' ' && Text.Trim(s)[i + 1] == ' '
    ensures FromStr(s).Err?
  {
    Text.SplitDoubleSpace(Text.Trim(s), i);
    var tokens := Tokens(s);
    var j :| 0 <= j < |tokens[1..]| && tokens[1..][j] == "";
    assert tokens[j + 1] == "";
    Text.TrimPadded("", "", "");
    assert Text.ToLower("") == "";
    assert BandColors.FromStr(tokens[j + 1]).Err?;
  }

  /** The empty string is one empty token: too few bands, count 1. */
  lemma FromStrEmpty()
    ensures FromStr("") == Err(InsufficientBands(1))
  {
    Text.TrimPadded("", "", "");
    assert "" + "" + "" == "";
  }
}
