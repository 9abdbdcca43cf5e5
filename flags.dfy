/**
  The two derived columns of a data row: whether the requirement text states
  a measurement (a digit together with a unit marker) and whether the text or
  the rationale mentions one of the domain words.
 */
module Flags {
  import opened Text

  /** The unit markers of line 22, literal substrings of the text. */
  const FlagNum: seq<string> := [
    "+/-", "%", " days", " dB", " degrees", " feet", " ft", " hours", " Hz", " in", " inches",
    " lbf", " lbm", " MHz", " milliseconds", " ms", " percent", " pounds", " psf", " second",
    " seconds", " slug"]

  /** The domain words of line 23. */
  const FlagTxt: seq<string> := ["avionics", "roll", "yaw", "pitch"]

  /** `any(char.isnumeric() for char in text)` on ASCII text. */
  predicate HasDigit(text: string) {
    exists k :: 0 <= k < |text| && IsDigit(text[k])
  }

  /** Some marker is a literal substring of the text. */
  predicate HasMarker(text: string, markers: seq<string>) {
    exists j :: 0 <= j < |markers| && Contains(text, markers[j])
  }

  /** Column 8 of a data row. */
  predicate NumericFlagHolds(text: string, markers: seq<string>) {
    HasDigit(text) && HasMarker(text, markers)
  }

  /** Some word, lowercased, occurs in the lowercased text or rationale. */
  predicate KeywordFlagHolds(text: string, rationale: string, words: seq<string>) {
    exists j :: 0 <= j < |words| &&
      (Contains(Lower(text), Lower(words[j])) || Contains(Lower(rationale), Lower(words[j])))
  }

  /** Lines 101-108: the flag starts as "has a digit" and is cleared when no
      marker occurs; a digit on its own does not set it. */
  method NumericFlag(text: string, markers: seq<string>) returns (flag: bool)
    ensures flag == NumericFlagHolds(text, markers)
  {
    flag := HasDigit(text);
    var numCount := 0;
    if flag {
      for k := 0 to |markers|
        invariant numCount == 0 <==> forall j :: 0 <= j < k ==> !Contains(text, markers[j])
      {
        if Contains(text, markers[k]) {
          numCount := numCount + 1;
        }
      }
      if numCount == 0 {
        flag := false;
      }
    }
  }

  /** Lines 111-117: the flag is set when at least one word is counted. */
  method KeywordFlag(text: string, rationale: string, words: seq<string>) returns (flag: bool)
    ensures flag == KeywordFlagHolds(text, rationale, words)
  {
    flag := false;
    var wordCount := 0;
    for k := 0 to |words|
      invariant wordCount == 0 <==> forall j :: 0 <= j < k ==>
        !Contains(Lower(text), Lower(words[j])) && !Contains(Lower(rationale), Lower(words[j]))
    {
      var w := Lower(words[k]);
      if Contains(Lower(text), w) || Contains(Lower(rationale), w) {
        wordCount := wordCount + 1;
      }
    }
    if wordCount != 0 {
      flag := true;
    }
  }
}
