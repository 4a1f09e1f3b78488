/** The concrete cases the library's documentation and tests state,
    derived from the general lemmas. Each string is a parameter fixed by the
    precondition rather than a literal in the `ensures`: with a literal
    argument the verifier unfolds the parser on it character by character
    and runs out of resources. For the same reason each `...Joined` lemma
    shows, on its own, that the string is the words joined by single
    spaces, and `FromStrNames` does the parsing. */
module ResistorExamples {
  import opened BandColors
  import Resistors
  import Text

  lemma BrownBlackRedJoined(s: string)
    requires s == "brown black red"
    ensures s == Text.Join(["brown", "black", "red"])
  {
  }

  /** The doc example: "brown black red" has Brown as band 0 and decodes to
      1000, and `with_bands` builds the same resistor. */
  lemma DocExample(s: string)
    requires s == "brown black red"
    ensures Resistors.FromStr(s) == Ok(Resistors.Resistor([Brown, Black, Red]))
    ensures Resistors.GetBands(Resistors.FromStr(s).value)[0] == Brown
    ensures Resistors.GetValue(Resistors.FromStr(s).value) == 1000
    ensures Resistors.WithBands([Brown, Black, Red]) == Resistors.FromStr(s)
  {
    assert Resistors.GetValue(Resistors.Resistor([Brown, Black, Red])) == 1000;
    BrownBlackRedJoined(s);
    Resistors.FromStrNames(s, ["brown", "black", "red"], [Brown, Black, Red]);
  }

  lemma BrownBrownRedJoined(s: string)
    requires s == "brown brown red"
    ensures s == Text.Join(["brown", "brown", "red"])
  {
  }

  /** "brown brown red" parses to Brown, Brown, Red and decodes to 1100. */
  lemma BrownBrownRed(s: string)
    requires s == "brown brown red"
    ensures Resistors.FromStr(s) == Ok(Resistors.Resistor([Brown, Brown, Red]))
    ensures Resistors.GetBands(Resistors.FromStr(s).value) == [Brown, Brown, Red]
    ensures Resistors.GetValue(Resistors.FromStr(s).value) == 1100
  {
    assert Resistors.GetValue(Resistors.Resistor([Brown, Brown, Red])) == 1100;
    BrownBrownRedJoined(s);
    Resistors.FromStrNames(s, ["brown", "brown", "red"], [Brown, Brown, Red]);
  }

  lemma GreenYellowOrangeBlackJoined(s: string)
    requires s == "green yellow orange black"
    ensures s == Text.Join(["green", "yellow", "orange", "black"])
  {
  }

  /** "green yellow orange black" parses to Green, Yellow, Orange, Black and decodes to 54000. */
  lemma GreenYellowOrangeBlack(s: string)
    requires s == "green yellow orange black"
    ensures Resistors.FromStr(s) == Ok(Resistors.Resistor([Green, Yellow, Orange, Black]))
    ensures Resistors.GetValue(Resistors.FromStr(s).value) == 54000
  {
    assert Resistors.GetValue(Resistors.Resistor([Green, Yellow, Orange, Black])) == 54000;
    GreenYellowOrangeBlackJoined(s);
    Resistors.FromStrNames(s, ["green", "yellow", "orange", "black"], [Green, Yellow, Orange, Black]);
  }

  lemma BrownBlackOrangeJoined(s: string)
    requires s == "brown black orange"
    ensures s == Text.Join(["brown", "black", "orange"])
  {
  }

  /** "brown black orange" parses to Brown, Black, Orange and decodes to 10000. */
  lemma BrownBlackOrange(s: string)
    requires s == "brown black orange"
    ensures Resistors.FromStr(s) == Ok(Resistors.Resistor([Brown, Black, Orange]))
    ensures Resistors.GetValue(Resistors.FromStr(s).value) == 10000
  {
    assert Resistors.GetValue(Resistors.Resistor([Brown, Black, Orange])) == 10000;
    BrownBlackOrangeJoined(s);
    Resistors.FromStrNames(s, ["brown", "black", "orange"], [Brown, Black, Orange]);
  }

  lemma YellowBlueGreenJoined(s: string)
    requires s == "yellow blue green"
    ensures s == Text.Join(["yellow", "blue", "green"])
  {
  }

  /** "yellow blue green" parses to Yellow, Blue, Green and decodes to 4600000. */
  lemma YellowBlueGreen(s: string)
    requires s == "yellow blue green"
    ensures Resistors.FromStr(s) == Ok(Resistors.Resistor([Yellow, Blue, Green]))
    ensures Resistors.GetValue(Resistors.FromStr(s).value) == 4600000
  {
    assert Resistors.Pow10(5) == 100000;
    assert Resistors.GetValue(Resistors.Resistor([Yellow, Blue, Green])) == 4600000;
    YellowBlueGreenJoined(s);
    Resistors.FromStrNames(s, ["yellow", "blue", "green"], [Yellow, Blue, Green]);
  }

  lemma RedGreenBrownJoined(s: string)
    requires s == "red green brown"
    ensures s == Text.Join(["red", "green", "brown"])
  {
  }

  /** "red green brown" parses to Red, Green, Brown and decodes to 250. */
  lemma RedGreenBrown(s: string)
    requires s == "red green brown"
    ensures Resistors.FromStr(s) == Ok(Resistors.Resistor([Red, Green, Brown]))
    ensures Resistors.GetValue(Resistors.FromStr(s).value) == 250
  {
    assert Resistors.GetValue(Resistors.Resistor([Red, Green, Brown])) == 250;
    RedGreenBrownJoined(s);
    Resistors.FromStrNames(s, ["red", "green", "brown"], [Red, Green, Brown]);
  }

  lemma BrownRedGreenRedWhiteJoined(s: string)
    requires s == "brown red green red white"
    ensures s == Text.Join(["brown", "red", "green", "red", "white"])
  {
  }

  /** "brown red green red white" parses to Brown, Red, Green, Red, White and decodes to 12500. */
  lemma BrownRedGreenRedWhite(s: string)
    requires s == "brown red green red white"
    ensures Resistors.FromStr(s) == Ok(Resistors.Resistor([Brown, Red, Green, Red, White]))
    ensures Resistors.GetValue(Resistors.FromStr(s).value) == 12500
  {
    assert Resistors.GetValue(Resistors.Resistor([Brown, Red, Green, Red, White])) == 12500;
    BrownRedGreenRedWhiteJoined(s);
    Resistors.FromStrNames(s, ["brown", "red", "green", "red", "white"], [Brown, Red, Green, Red, White]);
  }

  lemma SixBlacksJoined(s: string)
    requires s == "black black black black black black"
    ensures s == Text.Join(["black", "black", "black", "black", "black", "black"])
  {
  }

  /** "black black black black black black" parses to Black, Black, Black, Black, Black, Black and decodes to 0. */
  lemma SixBlacks(s: string)
    requires s == "black black black black black black"
    ensures Resistors.FromStr(s) == Ok(Resistors.Resistor([Black, Black, Black, Black, Black, Black]))
    ensures Resistors.GetValue(Resistors.FromStr(s).value) == 0
  {
    assert Resistors.GetValue(Resistors.Resistor([Black, Black, Black, Black, Black, Black])) == 0;
    SixBlacksJoined(s);
    Resistors.FromStrNames(s, ["black", "black", "black", "black", "black", "black"], [Black, Black, Black, Black, Black, Black]);
  }

  /** `with_bands` caps nothing: seven bands make a resistor, which
      `get_value` would then reject. */
  lemma SevenBandsAccepted()
    ensures Resistors.WithBands([Brown, Black, Red, Brown, Black, Red, Brown]).Ok?
    ensures |Resistors.GetBands(Resistors.WithBands([Brown, Black, Red, Brown, Black, Red, Brown]).value)| == 7
  {
  }
}
