/**
 * Concrete runs of the release script's version logic: what it does with the application as
 * shipped, and which version strings it refuses.
 */
module ReleaseScenarios {
  import opened Wrappers
  import Text
  import Digits
  import opened Release

  /** The default version is the text `1.0.0`, and it parses. */
  lemma DefaultVersionText()
    ensures DefaultVersion == "1.0.0"
    ensures ParseVersion(DefaultVersion) == Ok(Version(1, 0, 0))
  {
    Digits.IntToStringDigit(1);
    Digits.IntToStringDigit(0);
    var one, zero := Digits.IntToString(1), Digits.IntToString(0);
    assert one == ['1'] && zero == ['0'];
    assert DefaultVersion == one + ['.'] + zero + ['.'] + zero;
    FiveChars('1', '.', '0', '.', '0');
    ParseVersionString(Version(1, 0, 0));
  }

  /** Five one-character strings in a row spell the five characters. */
  lemma FiveChars(a: char, b: char, c: char, d: char, e: char)
    ensures [a] + [b] + [c] + [d] + [e] == [a, b, c, d, e]
  {
  }

  /** Two fields or four fields: not a semantic version. */
  lemma ParseVersionRejectsFieldCount(two: string, four: string)
    requires two == "1.2" && four == "1.2.3.4"
    ensures ParseVersion(two).Err? && ParseVersion(four).Err?
  {
    Text.SplitNoSeparator("2", '.');
    Text.SplitCons("1", '.', "2");
    assert two == "1" + ['.'] + "2";
    Text.SplitNoSeparator("4", '.');
    Text.SplitCons("3", '.', "4");
    assert "3.4" == "3" + ['.'] + "4";
    Text.SplitCons("2", '.', "3.4");
    assert "2.3.4" == "2" + ['.'] + "3.4";
    Text.SplitCons("1", '.', "2.3.4");
    assert four == "1" + ['.'] + "2.3.4";
  }

  /** A field that is not an integer: not a semantic version. */
  lemma ParseVersionRejectsLetter(letter: string)
    requires letter == "1.x.3"
    ensures ParseVersion(letter).Err?
  {
    Text.SplitNoSeparator("3", '.');
    Text.SplitCons("x", '.', "3");
    assert "x.3" == "x" + ['.'] + "3";
    Text.SplitCons("1", '.', "x.3");
    assert letter == "1" + ['.'] + "x.3";
    var x := Text.Split(letter, '.')[1];
    assert x == "x";
    Digits.ParseIntRejectsCharacter(x);
  }
}
