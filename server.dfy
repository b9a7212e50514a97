/** The Flask application of app.py: the module-level list
    `analysis_history` becomes the field `history` of one `App` object, and
    each route becomes a member of it. */
module Server {
  import opened Sentiment
  import opened History

  /** A route's JSON answer: the success body, or an error with its HTTP
      status. */
  datatype Response<T> = Ok(body: T) | Fail(status: nat, error: string)

  const NoTextProvided: string := "No text provided"
  const InvalidText: string := "Invalid text"
  const NoTextsProvided: string := "No texts provided"

  class App {
    /** `analysis_history`, oldest entry first. */
    var history: seq<Analysis>
    /** Every analysis /analyze has accepted since start-up, oldest first. */
    ghost var accepted: seq<Analysis>

    /** The history holds at most ten entries, and they are the last ten
        accepted analyses, each one as analyze_sentiment built it. */
    ghost predicate Valid()
      reads this
    {
      |history| <= MaxHistory &&
      history == Window(accepted) &&
      forall i :: 0 <= i < |history| ==> WellFormed(history[i])
    }

    /** The server at start-up: `analysis_history = []`. */
    constructor ()
      ensures Valid() && history == [] && accepted == []
    {
      history := [];
      accepted := [];
    }

    /** POST /analyze. An empty text is refused with "No text provided", a
        text of white space only with "Invalid text", both with status 400
        and without touching the history; any other text is analysed and
        its analysis recorded at the end of the history, evicting the
        oldest entry once there are more than ten. */
    method Analyze(text: string, reading: Reading) returns (resp: Response<Analysis>)
      requires Valid()
      modifies this
      ensures Valid()
      ensures text == [] ==> resp == Fail(400, NoTextProvided)
      ensures text != [] && IsBlank(text) ==> resp == Fail(400, InvalidText)
      ensures resp.Fail? <==> IsBlank(text)
      ensures resp.Fail? ==> history == old(history) && accepted == old(accepted)
      ensures resp.Ok? ==> Some(resp.body) == AnalyzeSentiment(text, reading)
      ensures resp.Ok? ==> accepted == old(accepted) + [resp.body]
      ensures resp.Ok? ==> history == Recorded(old(history), resp.body)
      ensures resp.Ok? ==> |history| == if |old(history)| < MaxHistory then |old(history)| + 1 else MaxHistory
      ensures resp.Ok? ==> history[|history| - 1] == resp.body && Listing()[0] == resp.body
    {
      if text == [] {
        return Fail(400, NoTextProvided);
      }
      var result := AnalyzeSentiment(text, reading);
      if result.Some? {
        ghost var before := history;
        history := history + [result.value];
        if |history| > MaxHistory {
          history := history[1..];
        }
        assert history == Recorded(before, result.value);
        RecordedLengthAndLast(before, result.value);
        RecordKeepsWindow(accepted, result.value);
        accepted := accepted + [result.value];
        resp := Ok(result.value);
      } else {
        resp := Fail(400, InvalidText);
      }
    }

    /** GET /history: the history newest first. */
    function Listing(): (r: seq<Analysis>)
      reads this
      ensures |r| == |history|
      ensures forall i :: 0 <= i < |r| ==> r[i] == history[|history| - 1 - i]
    {
      Reversed(history)
    }

    /** GET /stats, without the averages: the label counts of the history,
        which add up to its length, and all zeros for an empty history. */
    function Stats(): (st: History.Stats)
      reads this
      ensures st.total == |history|
      ensures st.positive + st.negative + st.neutral == st.total
      ensures history == [] ==> st == History.Stats(0, 0, 0, 0)
      ensures st.positive == Count(history, Positive)
      ensures st.negative == Count(history, Negative)
      ensures st.neutral == Count(history, Neutral)
    {
      StatsOf(history)
    }

    /** POST /batch-analyze. An empty list is refused with "No texts
        provided"; otherwise each text is analysed in order (the i-th with
        the i-th reading) and the analyses that are not None are returned.
        The history is left alone: this method may modify nothing. */
    method BatchAnalyze(texts: seq<string>, readings: seq<Reading>) returns (resp: Response<seq<Analysis>>)
      requires |readings| == |texts|
      ensures texts == [] <==> resp.Fail?
      ensures texts == [] ==> resp == Fail(400, NoTextsProvided)
      ensures resp.Ok? ==> resp.body == Analyses(texts, readings)
    {
      if texts == [] {
        return Fail(400, NoTextsProvided);
      }
      var results: seq<Analysis> := [];
      for i := 0 to |texts|
        invariant results == Analyses(texts[..i], readings[..i])
      {
        assert texts[..i + 1][..i] == texts[..i] && readings[..i + 1][..i] == readings[..i];
        var result := AnalyzeSentiment(texts[i], readings[i]);
        if result.Some? {
          results := results + [result.value];
        }
      }
      assert texts[..|texts|] == texts && readings[..|texts|] == readings;
      resp := Ok(results);
    }
  }
}
