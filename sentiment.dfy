/** Classification of one text (analyze_sentiment in app.py).

    The polarity and subjectivity scores come from TextBlob and the
    timestamp from the wall clock; neither is visible here, so both arrive
    as a `Reading`. Everything the server does with those two numbers is
    modelled: the blank-text guard, the three-way classification around
    the +/-0.1 thresholds and the emoji and colour token of each label. */
module Sentiment {

  /** Polarity as TextBlob reports it: from -1 (negative) to 1 (positive). */
  type Polarity = r: real | -1.0 <= r <= 1.0

  /** Subjectivity as TextBlob reports it: from 0 (objective) to 1 (subjective). */
  type Subjectivity = r: real | 0.0 <= r <= 1.0

  /** What the scorer and the clock report for one analysed text. */
  datatype Reading = Reading(polarity: Polarity, subjectivity: Subjectivity, timestamp: string)

  datatype Label = Positive | Negative | Neutral

  /** One analysis, the dictionary that analyze_sentiment returns. */
  datatype Analysis = Analysis(
    text: string,
    sentiment: Label,
    emoji: string,
    color: string,
    polarity: Polarity,
    subjectivity: Subjectivity,
    timestamp: string)

  datatype Option<T> = None | Some(value: T)

  /** Polarity strictly above this is Positive, strictly below its negation Negative. */
  const Threshold: real := 0.1

  /** The label as the JSON field `sentiment` spells it. */
  function LabelName(l: Label): string {
    match l
    case Positive => "Positive"
    case Negative => "Negative"
    case Neutral => "Neutral"
  }

  function Emoji(l: Label): string {
    match l
    case Positive => "\U{1F60A}"
    case Negative => "\U{1F614}"
    case Neutral => "\U{1F610}"
  }

  /** The colour token the page maps to a style. */
  function Color(l: Label): string {
    match l
    case Positive => "success"
    case Negative => "danger"
    case Neutral => "secondary"
  }

  /** Python's str.isspace, on which str.strip() relies: the code points
      Unicode classes as white space plus the four ASCII separators. */
  predicate IsSpace(c: char) {
    var n := c as int;
    (0x09 <= n <= 0x0D) || (0x1C <= n <= 0x20) || n == 0x85 || n == 0xA0 ||
    n == 0x1680 || (0x2000 <= n <= 0x200A) || n == 0x2028 || n == 0x2029 ||
    n == 0x202F || n == 0x205F || n == 0x3000
  }

  /** A text made only of white space (the empty text included). */
  predicate IsBlank(text: string) {
    forall i :: 0 <= i < |text| ==> IsSpace(text[i])
  }

  /** The number of white-space characters at the start of `s`. */
  function LeadingSpaces(s: string): (n: nat)
    ensures n <= |s|
    ensures forall k :: 0 <= k < n ==> IsSpace(s[k])
    ensures n == |s| || !IsSpace(s[n])
  {
    if s != [] && IsSpace(s[0]) then 1 + LeadingSpaces(s[1..]) else 0
  }

  /** The number of white-space characters at the end of `s`. */
  function TrailingSpaces(s: string): (n: nat)
    ensures n <= |s|
    ensures forall k :: |s| - n <= k < |s| ==> IsSpace(s[k])
    ensures n == |s| || !IsSpace(s[|s| - 1 - n])
  {
    if s != [] && IsSpace(s[|s| - 1]) then 1 + TrailingSpaces(s[..|s| - 1]) else 0
  }

  /** str.strip(): the text with its leading and trailing white space
      removed and nothing else. The result is the slice of the text that
      starts after its leading white space, everything after the slice is
      white space, and the slice neither starts nor ends with white space;
      it is empty exactly when the text is made only of white space. */
  function Strip(s: string): (r: string)
    ensures LeadingSpaces(s) + |r| <= |s|
    ensures r == s[LeadingSpaces(s)..LeadingSpaces(s) + |r|]
    ensures forall k :: LeadingSpaces(s) + |r| <= k < |s| ==> IsSpace(s[k])
    ensures r == [] || (!IsSpace(r[0]) && !IsSpace(r[|r| - 1]))
    ensures r == [] <==> IsBlank(s)
  {
    var i := LeadingSpaces(s);
    var n := TrailingSpaces(s[i..]);
    assert forall k :: |s| - n <= k < |s| ==> s[k] == s[i..][k - i];
    s[i..|s| - n]
  }

  /** The guard of analyze_sentiment, `not text or text.strip() == ""`,
      holds exactly of the texts made only of white space. */
  lemma StripEmptyIffBlank(text: string)
    ensures (text == [] || Strip(text) == []) <==> IsBlank(text)
  {
  }

  /** The three-way classification of a polarity score. */
  function Classify(polarity: real): (l: Label)
    ensures l == Positive <==> polarity > Threshold
    ensures l == Negative <==> polarity < -Threshold
    ensures l == Neutral <==> -Threshold <= polarity <= Threshold
  {
    if polarity > Threshold then Positive
    else if polarity < -Threshold then Negative
    else Neutral
  }

  /** analyze_sentiment: None for a blank text, otherwise the classified
      analysis of that text. */
  function AnalyzeSentiment(text: string, reading: Reading): (r: Option<Analysis>)
    ensures r.None? <==> IsBlank(text)
    ensures r.Some? ==> WellFormed(r.value)
    ensures r.Some? ==> r.value.text == text && r.value.polarity == reading.polarity &&
                        r.value.subjectivity == reading.subjectivity &&
                        r.value.timestamp == reading.timestamp
  {
    StripEmptyIffBlank(text);
    if text == [] || Strip(text) == [] then None
    else
      var l := Classify(reading.polarity);
      Some(Analysis(text, l, Emoji(l), Color(l),
                    reading.polarity, reading.subjectivity, reading.timestamp))
  }

  /** What every analysis built by AnalyzeSentiment satisfies: a non-blank
      text, the label its (unrounded) polarity calls for, and that label's
      emoji and colour. */
  predicate WellFormed(a: Analysis) {
    !IsBlank(a.text) &&
    a.sentiment == Classify(a.polarity) &&
    a.emoji == Emoji(a.sentiment) &&
    a.color == Color(a.sentiment)
  }

  /** The label, emoji and colour of an analysis are fixed by its polarity
      alone: two texts with the same score are shown the same way. */
  lemma {:induction false} PresentationDependsOnPolarityOnly(t1: string, t2: string, r1: Reading, r2: Reading)
    requires !IsBlank(t1) && !IsBlank(t2) && r1.polarity == r2.polarity
    ensures AnalyzeSentiment(t1, r1).Some? && AnalyzeSentiment(t2, r2).Some?
    ensures AnalyzeSentiment(t1, r1).value.sentiment == AnalyzeSentiment(t2, r2).value.sentiment
    ensures AnalyzeSentiment(t1, r1).value.emoji == AnalyzeSentiment(t2, r2).value.emoji
    ensures AnalyzeSentiment(t1, r1).value.color == AnalyzeSentiment(t2, r2).value.color
  {
  }
}
