/** Resistor band colours: the ten-colour table, parsing one colour name, and
    parsing a list of names into bands (`BandColor`, `from_str`,
    `get_bands`). */
module BandColors {
  import Text

  /** The ten colours; each one's digit is its discriminant (see Digit). */
  datatype BandColor = Black | Brown | Red | Orange | Yellow | Green | Blue | Violet | Grey | White

  /** Why a parse failed: a name that is no colour (carrying the input as it
      was given, untrimmed), or too few bands (carrying how many there were). */
  datatype ParseError = UnknownColor(input: string) | InsufficientBands(count: nat)

  datatype Result<T> = Ok(value: T) | Err(error: ParseError) {
    /** The same error, as a result of another type. */
    function PropagateTo<U>(): Result<U>
      requires Err?
    {
      Err(error)
    }
  }

  datatype Option<T> = None | Some(value: T)

  /** The minimum number of bands a resistor needs. */
  const MinBands: nat := 3

  /** `band as u32`: the digit of a significant band, and the power of ten of
      a multiplier band. */
  function Digit(c: BandColor): (d: nat)
    ensures d <= 9
  {
    match c
    case Black => 0
    case Brown => 1
    case Red => 2
    case Orange => 3
    case Yellow => 4
    case Green => 5
    case Blue => 6
    case Violet => 7
    case Grey => 8
    case White => 9
  }

  /** The colour of a digit: the inverse of Digit. */
  function FromDigit(d: nat): (c: BandColor)
    requires d <= 9
    ensures Digit(c) == d
  {
    [Black, Brown, Red, Orange, Yellow, Green, Blue, Violet, Grey, White][d]
  }

  /** Distinct colours have distinct digits, so Digit is a bijection onto
      0..9. */
  lemma DigitInjective(c: BandColor, c': BandColor)
    ensures Digit(c) == Digit(c') ==> c == c'
    ensures FromDigit(Digit(c)) == c
  {
  }

  /** The lower-case name the parser accepts for each colour. */
  function Name(c: BandColor): string {
    match c
    case Black => "black"
    case Brown => "brown"
    case Red => "red"
    case Orange => "orange"
    case Yellow => "yellow"
    case Green => "green"
    case Blue => "blue"
    case Violet => "violet"
    case Grey => "grey"
    case White => "white"
  }

  /** What `from_str` compares against the names: the input trimmed, then
      lower-cased. */
  function Normalize(s: string): string {
    Text.ToLower(Text.Trim(s))
  }

  /** The colour named exactly `n`, if any: the arms of the `match` in
      `from_str`. */
  function Lookup(n: string): (r: Option<BandColor>)
    ensures r.Some? ==> Name(r.value) == n
  {
    if n == "black" then Some(Black)
    else if n == "brown" then Some(Brown)
    else if n == "red" then Some(Red)
    else if n == "orange" then Some(Orange)
    else if n == "yellow" then Some(Yellow)
    else if n == "green" then Some(Green)
    else if n == "blue" then Some(Blue)
    else if n == "violet" then Some(Violet)
    else if n == "grey" then Some(Grey)
    else if n == "white" then Some(White)
    else None
  }

  /** Each name is looked up as its own colour, so no two colours share a
      name. */
  lemma LookupName(c: BandColor)
    ensures Lookup(Name(c)) == Some(c)
  {
    match c
    case Black =>
    case Brown =>
    case Red =>
    case Orange =>
    case Yellow =>
    case Green =>
    case Blue =>
    case Violet =>
    case Grey =>
    case White =>
  }

  /** `BandColor::from_str`: the colour whose name is the normalised input;
      if there is none, an error carrying the original input. */
  function FromStr(s: string): (r: Result<BandColor>)
    ensures r.Ok? ==> Name(r.value) == Normalize(s)
    ensures r.Err? ==> r.error == UnknownColor(s)
  {
    match Lookup(Normalize(s))
    case Some(c) => Ok(c)
    case None => Err(UnknownColor(s))
  }

  /** `from_str` fails exactly when the normalised input is no colour's
      name. */
  lemma FromStrFailsIffUnknown(s: string)
    ensures FromStr(s).Err? <==> forall c: BandColor :: Name(c) != Normalize(s)
  {
    if FromStr(s).Err? {
      forall c: BandColor ensures Name(c) != Normalize(s) {
        LookupName(c);
      }
    }
  }

  /** Any input that normalises to a colour's name parses to that colour. */
  lemma FromStrNormalized(s: string, c: BandColor)
    requires Normalize(s) == Name(c)
    ensures FromStr(s) == Ok(c)
  {
    LookupName(c);
  }

  lemma NameFacts(c: BandColor)
    ensures |Name(c)| > 0
    ensures forall i :: 0 <= i < |Name(c)| ==> Text.IsLowerLetter(Name(c)[i])
    ensures ' ' !in Name(c)
  {
  }

  /** A colour's name is a single non-empty word: no spaces, and no
      whitespace at either end. */
  lemma NameIsWord(c: BandColor)
    ensures |Name(c)| > 0 && ' ' !in Name(c)
    ensures !Text.IsWhitespace(Name(c)[0]) && !Text.IsWhitespace(Name(c)[|Name(c)| - 1])
  {
  }

  /** `t` spells `name` in any mixture of upper and lower case. */
  predicate SpellsIgnoringCase(t: string, name: string) {
    |t| == |name| && forall i :: 0 <= i < |t| ==> Text.LowerChar(t[i]) == name[i]
  }

  /** Parsing ignores letter case and surrounding whitespace: a colour's name,
      in any case, padded with any whitespace, parses to that colour. */
  lemma FromStrAnyCasePadded(c: BandColor, p: string, t: string, q: string)
    requires Text.AllWhitespace(p) && Text.AllWhitespace(q)
    requires SpellsIgnoringCase(t, Name(c))
    ensures FromStr(p + t + q) == Ok(c)
  {
    NameFacts(c);
    assert Text.IsLowerLetter(Text.LowerChar(t[0]));
    assert Text.IsLowerLetter(Text.LowerChar(t[|t| - 1]));
    Text.TrimPadded(p, t, q);
    Text.ToLowerAt(t);
    assert Text.ToLower(t) == Name(c);
    FromStrNormalized(p + t + q, c);
  }

  /** Every colour's own name parses back to it. */
  lemma FromStrName(c: BandColor)
    ensures FromStr(Name(c)) == Ok(c)
  {
    NameFacts(c);
    FromStrAnyCasePadded(c, "", Name(c), "");
    assert "" + Name(c) + "" == Name(c);
  }

  /** The index of the first name that does not parse, or the number of names
      when every one parses. */
  function FirstFailure(names: seq<string>): (k: nat)
    ensures k <= |names|
    ensures forall j :: 0 <= j < k ==> FromStr(names[j]).Ok?
    ensures k < |names| ==> FromStr(names[k]).Err?
    decreases |names|
  {
    if |names| == 0 || FromStr(names[0]).Err? then 0 else 1 + FirstFailure(names[1..])
  }

  /** Parses every name in order, stopping at the first one that fails. */
  function ParseAll(names: seq<string>): (r: Result<seq<BandColor>>)
    ensures r.Ok? ==> (|r.value| == |names| &&
      forall i :: 0 <= i < |names| ==> FromStr(names[i]) == Ok(r.value[i]))
    ensures r.Err? ==> (FirstFailure(names) < |names| &&
      r.error == FromStr(names[FirstFailure(names)]).error)
    decreases |names|
  {
    if |names| == 0 then Ok([])
    else
      var head, rest := FromStr(names[0]), names[1..];
      var tail := ParseAll(rest);
      assert forall i :: 0 < i < |names| ==> names[i] == rest[i - 1];
      if head.Err? then
        assert FirstFailure(names) == 0;
        Err(head.error)
      else if tail.Err? then
        assert FirstFailure(names) == 1 + FirstFailure(rest);
        Err(tail.error)
      else
        var bands := [head.value] + tail.value;
        assert forall i :: 0 < i < |names| ==> bands[i] == tail.value[i - 1];
        Ok(bands)
  }

  /** `BandColor::get_bands` as a function: too few names is an error
      carrying the count, before any name is looked at; otherwise the names
      are parsed in order and the first failure is the error. */
  function ParseBands(names: seq<string>): (r: Result<seq<BandColor>>)
    ensures |names| < MinBands ==> r == Err(InsufficientBands(|names|))
    ensures r.Ok? <==> |names| >= MinBands && forall i :: 0 <= i < |names| ==> FromStr(names[i]).Ok?
    ensures r.Ok? ==> (|r.value| == |names| &&
      forall i :: 0 <= i < |names| ==> FromStr(names[i]) == Ok(r.value[i]))
    ensures |names| >= MinBands && r.Err? ==> (FirstFailure(names) < |names| &&
      r.error == UnknownColor(names[FirstFailure(names)]))
  {
    if |names| < MinBands then Err(InsufficientBands(|names|)) else ParseAll(names)
  }

  /** When every name parses, `get_bands` returns exactly the parsed
      colours. */
  lemma ParseBandsAllParsed(names: seq<string>, bands: seq<BandColor>)
    requires |names| >= MinBands && |bands| == |names|
    requires forall j :: 0 <= j < |names| ==> FromStr(names[j]) == Ok(bands[j])
    ensures ParseBands(names) == Ok(bands)
  {
    var r := ParseBands(names);
    assert r.Ok?;
    assert r.value == bands;
  }

  /** When name `i` is the first that does not parse, `get_bands` returns
      its error. */
  lemma ParseBandsFirstFailure(names: seq<string>, i: nat)
    requires |names| >= MinBands && i < |names|
    requires forall j :: 0 <= j < i ==> FromStr(names[j]).Ok?
    requires FromStr(names[i]).Err?
    ensures ParseBands(names) == FromStr(names[i]).PropagateTo<seq<BandColor>>()
  {
    var k := FirstFailure(names);
    assert k <= i ==> FromStr(names[k]).Err?;
    assert k == i;
  }

  /** `BandColor::get_bands` as the Rust library writes it: a loop that pushes each
      parsed colour onto a vector and returns at the first failure. */
  method GetBands(names: seq<string>) returns (r: Result<seq<BandColor>>)
    ensures r == ParseBands(names)
  {
    if |names| < MinBands {
      return Err(InsufficientBands(|names|));
    }
    var bandVec: seq<BandColor> := [];
    for i := 0 to |names|
      invariant |bandVec| == i
      invariant forall j :: 0 <= j < i ==> FromStr(names[j]) == Ok(bandVec[j])
    {
      var parsed := FromStr(names[i]);
      match parsed {
        case Ok(band) =>
          assert forall j :: 0 <= j < i ==> (bandVec + [band])[j] == bandVec[j];
          bandVec := bandVec + [band];
        case Err(why) =>
          ParseBandsFirstFailure(names, i);
          return Err(why);
      }
    }
    ParseBandsAllParsed(names, bandVec);
    return Ok(bandVec);
  }

  /** The unknown names of the tests: rejected, carrying the name. */
  lemma UnknownNameAsdf()
    ensures FromStr("asdf") == Err(UnknownColor("asdf"))
  {
    FromStrUnknown("asdf");
  }

  lemma UnknownNameBluee()
    ensures FromStr("bluee") == Err(UnknownColor("bluee"))
  {
    FromStrUnknown("bluee");
  }

  lemma UnknownNameRedder()
    ensures FromStr("redder") == Err(UnknownColor("redder"))
  {
    FromStrUnknown("redder");
  }

  /** The mixed-case spellings of the tests parse to Black. */
  lemma MixedCaseBlackUpper()
    ensures FromStr("BLACK") == Ok(Black)
  {
    FromStrAnyCasePadded(Black, "", "BLACK", "");
    assert "" + "BLACK" + "" == "BLACK";
  }

  lemma MixedCaseBlackLastUpper()
    ensures FromStr("BlacK") == Ok(Black)
  {
    FromStrAnyCasePadded(Black, "", "BlacK", "");
    assert "" + "BlacK" + "" == "BlacK";
  }

  lemma MixedCaseBlackAlternating()
    ensures FromStr("BlAcK") == Ok(Black)
  {
    FromStrAnyCasePadded(Black, "", "BlAcK", "");
    assert "" + "BlAcK" + "" == "BlAcK";
  }

  /** Fewer than three names are refused with the count, whatever they are. */
  lemma GetBandsInsufficientExamples()
    ensures ParseBands(["brown", "brown"]) == Err(InsufficientBands(2))
    ensures ParseBands([]) == Err(InsufficientBands(0))
    ensures ParseBands(["black"]) == Err(InsufficientBands(1))
  {
  }

  /** Three unknown names: the first one's error is returned. */
  lemma GetBandsBadColorExample()
    ensures ParseBands(["asdf", "asdf", "asdf"]) == Err(UnknownColor("asdf"))
  {
    UnknownNameAsdf();
    ParseBandsFirstFailure(["asdf", "asdf", "asdf"], 0);
  }

  /** The names come back as colours in the same order. */
  lemma GetBandsOrderExample()
    ensures ParseBands(["brown", "brown", "red"]) == Ok([Brown, Brown, Red])
  {
    FromStrName(Brown);
    FromStrName(Red);
    ParseBandsAllParsed(["brown", "brown", "red"], [Brown, Brown, Red]);
  }

  /** A trimmed, lower-case string that is no colour name is rejected with
      an error carrying it. */
  lemma FromStrUnknown(s: string)
    requires Text.Trimmed(s)
    requires forall i :: 0 <= i < |s| ==> !('A' <= s[i] <= 'Z')
    requires Lookup(s) == None
    ensures FromStr(s) == Err(UnknownColor(s))
  {
    Text.TrimPadded("", s, "");
    assert "" + s + "" == s;
    Text.ToLowerIdentity(s);
  }
}
