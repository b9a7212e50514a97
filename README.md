# Sentiment analysis server, modelled in Dafny

This project models the server side of a small sentiment-analysis web
application (`app.py`, a Flask app). A text is scored by TextBlob, which
gives a polarity in [-1, 1] and a subjectivity in [0, 1]. The server then
labels the text Positive, Negative or Neutral (polarity above 0.1, below
-0.1, or in between). Each label has a fixed emoji and colour token. The
server keeps the last ten successful analyses in an in-memory history. It
serves that history newest first and counts its entries by label. It also
analyses a batch of texts without recording them.

Three modules:

- `Sentiment` (`sentiment.dfy`): the blank-text guard of
  `analyze_sentiment`, which uses Python's `str.strip()` with its
  white-space set, and the classification of a polarity score. TextBlob's
  scores and the clock's timestamp arrive together as a `Reading`.
- `History` (`history.dfy`): pure functions over the history with their
  lemmas. These cover the append-then-evict step and the window of the
  last ten analyses it keeps, the reversal served by `/history`, the label
  counts of `/stats`, and the filtered results of `/batch-analyze`.
- `Server` (`server.dfy`): the class `App`. Its field `history` is the
  module-level list `analysis_history`, and each route is a member. A
  ghost field `accepted` records every analysis ever accepted. The class
  invariant says that `history` is the last ten of them, each well formed.

`Server.App.BatchAnalyze` takes one `Reading` per text, because the source
calls TextBlob and the clock once per text. Its `requires |readings| ==
|texts|` describes these stand-in inputs. It does not restrict the
source's callers.

## Model

| member | source | states |
|---|---|---|
| `Sentiment.IsSpace` | app.py:17 | the white-space set of Python's `str.strip()`: the code points `str.isspace` accepts (U+0009 to U+000D, U+001C to U+0020, U+0085, U+00A0, U+1680, U+2000 to U+200A, U+2028, U+2029, U+202F, U+205F, U+3000) |
| `Sentiment.Strip` | app.py:17 | `text.strip()`: the result is the slice of the text that starts right after its leading white space and is followed only by white space, it neither starts nor ends with white space, and it is empty exactly when the text is made only of white space |
| `Sentiment.LeadingSpaces` | app.py:17 | the white space `str.strip()` removes at the front: every counted character is white space, and the first character after them, if any, is not |
| `Sentiment.TrailingSpaces` | app.py:17 | the white space `str.strip()` removes at the back: every counted character is white space, and the last character before them, if any, is not |
| `Sentiment.StripEmptyIffBlank` | app.py:17-18 | the guard `not text or text.strip() == ""` holds exactly when every character of the text is white space |
| `Sentiment.Classify` | app.py:28-39 | Positive if and only if polarity > 0.1, Negative if and only if polarity < -0.1, Neutral if and only if -0.1 <= polarity <= 0.1 (so exactly ±0.1 is Neutral) |
| `Sentiment.AnalyzeSentiment` | app.py:12-49 | None exactly for empty or white-space-only texts; otherwise an analysis of that very text with the given scores and timestamp, whose label is the classification of its polarity, with that label's emoji and colour |
| `Sentiment.PresentationDependsOnPolarityOnly` | app.py:28-39 | two non-blank texts with the same polarity get the same label, emoji and colour |
| `Sentiment.LabelName` | app.py:29-37 | the `sentiment` strings "Positive", "Negative" and "Neutral" of the three labels |
| `Sentiment.Emoji` | app.py:30-38 | the fixed emoji of each label: 😊 for Positive, 😔 for Negative, 😐 for Neutral |
| `Sentiment.Color` | app.py:31-39 | the fixed colour token of each label: success, danger, secondary |
| `History.Recorded` | app.py:71-74 | `append` then `pop(0)` when the length exceeds 10: the length grows by one below 10 and stays put from 10 on, the new analysis is last, and the entries before it are the newest entries of the old history, in order |
| `History.Window` | app.py:71-74 | the kept window has at most 10 entries, all of a shorter sequence, otherwise its last 10 |
| `History.RecordedLengthAndLast` | app.py:71-74 | after an append to a history of at most 10 entries, the length is min(old + 1, 10) and the new analysis is the last entry |
| `History.RecordedEvictsOnlyOldest` | app.py:73-74 | below capacity the append drops nothing; at 10 entries exactly the oldest is dropped and the other 9 keep their order |
| `History.RecordedSlidesWindow` | app.py:71-74 | appending to the window of all earlier analyses gives the window of all analyses so far |
| `History.RecordKeepsWindow` | app.py:71-74 | appending a well-formed analysis to the window of the accepted analyses gives the window of the accepted ones plus the new one, with every entry still well formed |
| `History.ReplayIsWindow` | app.py:71-74 | `Replay`, the history after a run of successful /analyze calls from `analysis_history = []` (app.py:10), equals `Window`: starting from the empty list, any sequence of successful analyses leaves exactly the last min(n, 10) of them, in order |
| `History.Reversed` | app.py:91 | `reversed(...)`: same length, and element i is element len-1-i of the input |
| `History.ReversedTwice` | app.py:91 | reversing the listing again gives back the stored history |
| `History.ListingAfterRecord` | app.py:91 | after an append the listing starts with the new analysis, followed by the kept earlier entries, newest first |
| `History.ReversedSnoc` | app.py:91 | the listing of a history with one analysis appended is that analysis followed by the old listing |
| `History.ReversedDropFirst` | app.py:91 | dropping the oldest entry of the history drops the last entry of the listing |
| `History.Count` | app.py:134-136 | a label's count is at most the history length, and it is zero exactly when no entry has that label |
| `History.CountsPartition` | app.py:132-136 | positive + negative + neutral counts equal the history length |
| `History.CountAppend` | app.py:134-136 | counting over two concatenated histories adds the counts |
| `History.CountAfterRecord` | app.py:134-136 | after an append, the new entry's label count rises by one, and at capacity the evicted entry's label count falls by one |
| `History.CountReversed` | app.py:134-136 | the listing has the same label counts as the stored history |
| `History.PositiveCountIsPolarityCount` | app.py:134 | for analyses as AnalyzeSentiment builds them, the Positive count is the number of entries whose unrounded score exceeds 0.1 |
| `History.StatsOf` | app.py:121-136 | total = length of the history = positive + negative + neutral; all zeros for an empty history |
| `History.Analyses` | app.py:104-108 | the batch results are no more than the texts, and each is a well-formed analysis |
| `History.NonBlankPositions` | app.py:105-107 | the positions of the non-blank texts, strictly increasing, including every non-blank position |
| `History.AnalysesAreNonBlankAnalyses` | app.py:104-108 | the batch results are, in input order, the analyses of exactly the non-blank texts, one per such text |
| `Server.App.constructor` | app.py:10 | the server starts with an empty history |
| `Server.App.Analyze` | app.py:56-81 | empty text gives 400 "No text provided", white-space-only text gives 400 "Invalid text", and both leave the history unchanged; otherwise it returns analyze_sentiment's result, the history becomes the append-then-evict of the old one (length min(old + 1, 10)), the result is its last entry and the first entry of the listing, and the history stays the last ten accepted analyses |
| `Server.App.Listing` | app.py:86-92 | `/history` has the same length as the history, and entry i is the (i+1)-th most recent analysis |
| `Server.App.Stats` | app.py:118-139 | `/stats` total equals the history length and the sum of the three label counts; positive, negative and neutral are the numbers of history entries labelled Positive, Negative and Neutral; all zeros for an empty history |
| `Server.App.BatchAnalyze` | app.py:94-113 | an empty list gives 400 "No texts provided"; otherwise, in input order, the analyses of the texts whose analysis is not None (the non-blank texts); no frame, so the history is untouched |

## Left out

- TextBlob's scoring (app.py:21-25) is a library whose code is not part of this model. Its polarity and subjectivity are inputs, limited to [-1, 1] and [0, 1] by their types.
- `datetime.now()` (app.py:48) is clock I/O. The timestamp is an input string.
- Floating point: scores are exact reals. So the thresholds are exactly ±0.1, not the nearest binary double.
- Sentiment.AnalyzeSentiment: stores the polarity and subjectivity as given, not rounded to 4 decimals (app.py:46-47), because rounding floats is not modelled.
- History.PositiveCountIsPolarityCount, `Sentiment.WellFormed` and the invariant `Server.App.Valid`: these hold of the unrounded score only. app.py labels an entry from the raw score (app.py:28) but stores `round(polarity, 4)` (app.py:46), so a raw score of 0.10003 is stored as 0.1 in a Positive entry (and -0.10003 as -0.1 in a Negative one). In app.py's real history, the label can thus disagree with the classification of the stored polarity, and the Positive count can exceed the number of entries whose stored polarity is above 0.1.
- Server.App.Stats: does not return `avg_polarity` or `avg_subjectivity` (app.py:137-138), because they are float division and rounding.
- The `sentiment` field is the enumeration `Label`. `LabelName` gives its JSON spelling. `/stats` compares labels, not strings.
- Flask plumbing is not modelled. This covers routing, `request.get_json`, `jsonify`, `render_template` and `app.run` (app.py:51-54, 146-148). So is the `except Exception` path that answers 500 (app.py:83-84, 115-116). That path is only reached by malformed requests, such as a body that is not JSON or a `text` that is not a string. Texts are always strings here. `texts` elements of /batch-analyze that are JSON `null` (or another falsy value) are skipped silently by app.py:17 and 106-107, and a `seq<string>` cannot hold them; only blank strings are skipped in this model. Likewise a `texts` that is itself a JSON string (such as "abc") passes app.py:101, is iterated character by character at app.py:105, and is answered with one analysis per non-blank character; a `seq<string>` of texts cannot express it. A missing `text` key is the empty text, as `data.get('text', '')` makes it.
- The `success: True` wrapper of each JSON body is not modelled. The `Ok` case of `Response` stands for it.
- Concurrent requests are not modelled. Each route runs to completion before the next one starts.
- static/js/script.js is not part of this model. It is browser-side DOM updates, `fetch` calls and alerts, and its trim check repeats the server's.
