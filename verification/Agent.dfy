/** The `POST /ask_agent` handler of the Flask backend: a guard on the query,
    then a dispatch on the language model's decision text to one of three
    stock helpers, and a `{"response": ...}` reply.

    The decision text is an input here: the model call that produces it is not
    part of this model. So are the helpers, which fetch market data; they are
    passed in as opaque functions. */
module Agent {
  import opened Wrappers
  import opened Json
  import opened Text

  /** Python's `str.isspace()`: the characters `str.strip()` and the
      argument-less `str.split()` treat as whitespace. */
  predicate PySpace(c: char) {
    ('\t' <= c <= '\r') || ('\U{1C}' <= c <= ' ') || c == '\U{85}' || c == '\U{A0}'
    || c == '\U{1680}' || ('\U{2000}' <= c <= '\U{200A}') || c == '\U{2028}' || c == '\U{2029}'
    || c == '\U{202F}' || c == '\U{205F}' || c == '\U{3000}'
  }

  const PriceMarker: string := "CALL get_stock_price"
  const AnalyzeMarker: string := "CALL analyze_stock"
  const ReportMarker: string := "CALL get_finance_report"

  const NotUnderstood: string := "I couldn't understand your request. Please try again."
  const QueryRequired: string := "Query is required"

  /** What the decision text asks for. */
  datatype Command =
    | GetPrice(ticker: string)
    | Analyze(ticker: string)
    | FinanceReport(ticker: string)
    | Unknown

  ghost predicate IsMarker(m: string) {
    m == PriceMarker || m == AnalyzeMarker || m == ReportMarker
  }

  /** Every marker is a word, a space and another word, so a text containing one
      splits into at least two tokens and `split()[-1]` is always defined. */
  lemma MarkerSplits(d: string, m: string)
    requires IsMarker(m) && Contains(d, m)
    ensures |Split(d, PySpace)| >= 2
  {
    var i :| OccursAt(d, m, i);
    assert d[i..i + |m|][0] == d[i] && d[i..i + |m|][4] == d[i + 4] && d[i..i + |m|][5] == d[i + 5];
    TwoTokens(d, i, i + 4, i + 5, PySpace);
  }

  /** The if/elif chain on the stripped decision text: the first marker that
      occurs, in the order price, analysis, finance report, decides the command,
      and its ticker is the last token of the whole text. */
  function ParseDecision(d: string): (c: Command)
    ensures c.GetPrice? <==> Contains(d, PriceMarker)
    ensures c.Analyze? <==> !Contains(d, PriceMarker) && Contains(d, AnalyzeMarker)
    ensures c.FinanceReport? <==>
      !Contains(d, PriceMarker) && !Contains(d, AnalyzeMarker) && Contains(d, ReportMarker)
    ensures !c.Unknown? ==> |Split(d, PySpace)| >= 2 && IsLastWord(d, c.ticker, PySpace)
  {
    if Contains(d, PriceMarker) then
      MarkerSplits(d, PriceMarker);
      GetPrice(LastToken(d, PySpace))
    else if Contains(d, AnalyzeMarker) then
      MarkerSplits(d, AnalyzeMarker);
      Analyze(LastToken(d, PySpace))
    else if Contains(d, ReportMarker) then
      MarkerSplits(d, ReportMarker);
      FinanceReport(LastToken(d, PySpace))
    else
      Unknown
  }

  /** Each marker begins and ends with a letter. */
  lemma MarkersTight()
    ensures Tight(PriceMarker, PySpace) && Tight(AnalyzeMarker, PySpace)
    ensures Tight(ReportMarker, PySpace)
  {
    assert PriceMarker[0] == 'C' && PriceMarker[|PriceMarker| - 1] == 'e';
    assert AnalyzeMarker[0] == 'C' && AnalyzeMarker[|AnalyzeMarker| - 1] == 'k';
    assert ReportMarker[0] == 'C' && ReportMarker[|ReportMarker| - 1] == 't';
  }

  /** The command for the model's raw decision text, which is stripped first.
      Stripping loses no marker, so the markers of the raw text decide the
      command, and a ticker is the last token of the raw text. */
  function Classify(decision: string): (c: Command)
    ensures c.GetPrice? <==> Contains(decision, PriceMarker)
    ensures c.Analyze? <==>
      !Contains(decision, PriceMarker) && Contains(decision, AnalyzeMarker)
    ensures c.FinanceReport? <==>
      !Contains(decision, PriceMarker) && !Contains(decision, AnalyzeMarker)
      && Contains(decision, ReportMarker)
    ensures !c.Unknown? ==> IsLastWord(decision, c.ticker, PySpace)
  {
    var d := Strip(decision, PySpace);
    MarkersTight();
    ContainsStrip(decision, PriceMarker, PySpace);
    ContainsStrip(decision, AnalyzeMarker, PySpace);
    ContainsStrip(decision, ReportMarker, PySpace);
    var c := ParseDecision(d);
    if !c.Unknown? then LastWordOfStrip(decision, c.ticker, PySpace); c else c
  }

  /** Whitespace around the decision text changes neither the command nor the ticker. */
  lemma ClassifyIgnoresMargins(w1: string, decision: string, w2: string)
    requires AllSpace(w1, PySpace) && AllSpace(w2, PySpace)
    ensures Classify(w1 + decision + w2) == Classify(decision)
  {
    StripIgnoresMargins(w1, decision, w2, PySpace);
  }

  // ---------------------------------------------------------------------------
  // Worked decisions
  // ---------------------------------------------------------------------------

  /** The report marker contains neither of the other two. */
  lemma ReportHoldsNoOtherMarker()
    ensures !Contains(ReportMarker, PriceMarker) && !Contains(ReportMarker, AnalyzeMarker)
  {
    var r := ReportMarker;
    forall i | 0 <= i <= |r| - |PriceMarker| ensures !OccursAt(r, PriceMarker, i) {
      assert r[i..i + |PriceMarker|][0] == r[i] && r[i..i + |PriceMarker|][9] == r[i + 9];
    }
    forall i | 0 <= i <= |r| - |AnalyzeMarker| ensures !OccursAt(r, AnalyzeMarker, i) {
      assert r[i..i + |AnalyzeMarker|][0] == r[i] && r[i..i + |AnalyzeMarker|][5] == r[i + 5];
    }
  }

  /** A text of a word, one space and a token ends with that token. */
  lemma SecondWordLast(m: string)
    requires |m| > 5 && m[4] == ' ' && IsToken(m[5..], PySpace)
    ensures Contains(m, m) && IsLastWord(m, m[5..], PySpace)
  {
    assert OccursAt(m, m, 0);
    assert TrailingAt(m, m[5..], 5, 0, PySpace);
  }

  /** A non-empty run of characters from '_' to 'z' (lower-case letters and
      the underscore among them) is a token. */
  lemma LowerWordToken(w: string)
    requires w != [] && forall i :: 0 <= i < |w| ==> '_' <= w[i] <= 'z'
    ensures IsToken(w, PySpace)
  {
  }

  /** The second word of each marker is a token. */
  lemma PriceTail()
    ensures PriceMarker[4] == ' ' && IsToken(PriceMarker[5..], PySpace)
  {
    var w := PriceMarker[5..];
    assert forall i :: 0 <= i < |w| ==> '_' <= w[i] <= 'z';
    LowerWordToken(w);
  }

  lemma AnalyzeTail()
    ensures AnalyzeMarker[4] == ' ' && IsToken(AnalyzeMarker[5..], PySpace)
  {
    var w := AnalyzeMarker[5..];
    assert forall i :: 0 <= i < |w| ==> '_' <= w[i] <= 'z';
    LowerWordToken(w);
  }

  lemma ReportTail()
    ensures ReportMarker[4] == ' ' && IsToken(ReportMarker[5..], PySpace)
  {
    var w := ReportMarker[5..];
    assert forall i :: 0 <= i < |w| ==> '_' <= w[i] <= 'z';
    LowerWordToken(w);
  }

  /** Each marker's second word is the marker's last token. */
  lemma MarkerTail(m: string)
    requires IsMarker(m)
    ensures Contains(m, m) && IsLastWord(m, m[5..], PySpace)
  {
    PriceTail();
    AnalyzeTail();
    ReportTail();
    SecondWordLast(m);
  }

  /** A decision that is exactly a marker, with no ticker after it, is that
      marker's command, and its ticker is the marker's own second word. */
  lemma ExactMarkerTicker(m: string)
    requires IsMarker(m)
    ensures m == PriceMarker ==> Classify(m) == GetPrice(m[5..])
    ensures m == AnalyzeMarker ==> Classify(m) == Analyze(m[5..])
    ensures m == ReportMarker ==> Classify(m) == FinanceReport(m[5..])
  {
    MarkerTail(m);
    assert |AnalyzeMarker| < |PriceMarker|;
    ReportHoldsNoOtherMarker();
    LastWordUnique(m, Classify(m).ticker, m[5..], PySpace);
  }

  /** A decision containing the price marker asks for the price of its last
      token, whatever other markers it holds. */
  lemma PriceDecision(d: string, t: string)
    requires Contains(d, PriceMarker) && IsLastWord(d, t, PySpace)
    ensures Classify(d) == GetPrice(t)
  {
    LastWordUnique(d, Classify(d).ticker, t, PySpace);
  }

  /** Whatever precedes the price marker and whatever comes between it and the
      final token, other markers and tokens included, the decision asks for the
      price of that final token, verbatim. */
  lemma PriceOfFinalToken(pre: string, mid: string, t: string)
    requires IsToken(t, PySpace)
    ensures Classify(pre + PriceMarker + mid + " " + t) == GetPrice(t)
  {
    var d := pre + PriceMarker + mid + " " + t;
    assert d == pre + PriceMarker + (mid + " " + t);
    ContainsInfix(pre, PriceMarker, mid + " " + t);
    var k := |d| - |t|;
    assert d[k..] == t && d[k - 1] == ' ';
    assert TrailingAt(d, t, k, 0, PySpace);
    PriceDecision(d, t);
  }

  /** The markers are case-sensitive: a decision without a capital C, such as
      `call get_stock_price AAPL`, is not understood. */
  lemma LowerCaseMarkerUnknown(d: string)
    requires 'C' !in d
    ensures Classify(d) == Unknown
  {
    ContainsHead(d, PriceMarker);
    ContainsHead(d, AnalyzeMarker);
    ContainsHead(d, ReportMarker);
  }

  /** The model's "UNKNOWN" answer is not understood. */
  lemma UnknownAnswer()
    ensures Classify("UNKNOWN") == Unknown
  {
  }

  // ---------------------------------------------------------------------------
  // The request handler
  // ---------------------------------------------------------------------------

  /** The three stock helpers the dispatch may call, each from a ticker to the
      value placed under "response". They read market data and call the model,
      so they stay opaque. */
  datatype Tools = Tools(
    stockPrice: string -> Value,
    analyzeStock: string -> Value,
    financeReport: string -> Value)

  /** The value the dispatched command produces: a helper's result, or the fixed
      message when the decision was not understood. */
  function Perform(c: Command, tools: Tools): Value {
    match c
    case GetPrice(t) => tools.stockPrice(t)
    case Analyze(t) => tools.analyzeStock(t)
    case FinanceReport(t) => tools.financeReport(t)
    case Unknown => Str(NotUnderstood)
  }

  /** The outcome of the query guard and the decision call. */
  datatype Routed = Rejected | Raised | Dispatched(command: Command)

  /** `query` is the request's "query" field (None when absent, which reads as
      ""). `decision` is what the model call returns, or None when that call
      raises. Only an empty query is rejected, so a blank one is dispatched; a
      rejected query never reaches the model call. */
  function Route(query: Option<string>, decision: Option<string>): (r: Routed)
    ensures r.Rejected? <==> query == None || query == Some("")
    ensures r.Raised? <==> !r.Rejected? && decision == None
    ensures r.Dispatched? ==> r.command == Classify(decision.value)
  {
    if query.GetOr("") == "" then Rejected
    else if decision.None? then Raised
    else Dispatched(Classify(decision.value))
  }

  /** An HTTP reply: a status code and a JSON object body. */
  datatype HttpReply = HttpReply(status: int, body: map<string, Value>)

  /** `ask_agent`: HTTP 400 with the "Query is required" error for a missing or
      empty query; HTTP 500 from Flask when the model call raises, with no JSON
      body; otherwise HTTP 200 with the dispatched value as the only key
      "response". */
  function AskAgent(query: Option<string>, decision: Option<string>, tools: Tools): (r: HttpReply)
    ensures r.status == 400 <==> query == None || query == Some("")
    ensures r.status == 400 ==> r.body == map["error" := Str(QueryRequired)]
    ensures r.status == 500 <==> r.status != 400 && decision == None
    ensures r.status == 500 ==> r.body == map[]
    ensures r.status != 400 && r.status != 500 ==> r.status == 200 && r.body.Keys == {"response"}
    ensures r.status == 200 ==>
      decision.Some? && r.body["response"] == Perform(Classify(decision.value), tools)
  {
    match Route(query, decision)
    case Rejected => HttpReply(400, map["error" := Str(QueryRequired)])
    case Raised => HttpReply(500, map[])
    case Dispatched(c) => HttpReply(200, map["response" := Perform(c, tools)])
  }

  /** The dispatch end to end: for a non-empty query and a decision whose last
      token is `t`, the first marker found, in the order price, analysis,
      finance report, picks the helper that is called with `t`; with no marker
      the reply is the fixed message. */
  lemma DispatchReply(query: string, decision: string, t: string, tools: Tools)
    requires query != "" && IsLastWord(decision, t, PySpace)
    ensures AskAgent(Some(query), Some(decision), tools).status == 200
    ensures var v := AskAgent(Some(query), Some(decision), tools).body["response"];
      && (Contains(decision, PriceMarker) ==> v == tools.stockPrice(t))
      && (!Contains(decision, PriceMarker) && Contains(decision, AnalyzeMarker)
          ==> v == tools.analyzeStock(t))
      && ((!Contains(decision, PriceMarker) && !Contains(decision, AnalyzeMarker)
           && Contains(decision, ReportMarker)) ==> v == tools.financeReport(t))
      && ((!Contains(decision, PriceMarker) && !Contains(decision, AnalyzeMarker)
           && !Contains(decision, ReportMarker)) ==> v == Str(NotUnderstood))
  {
    var c := Classify(decision);
    if !c.Unknown? {
      LastWordUnique(decision, c.ticker, t, PySpace);
    }
  }

  /** A decision that holds no marker yields the fixed message and calls no helper. */
  lemma NotUnderstoodReply(query: string, decision: string, tools: Tools)
    requires query != ""
    requires !Contains(decision, PriceMarker) && !Contains(decision, AnalyzeMarker)
    requires !Contains(decision, ReportMarker)
    ensures AskAgent(Some(query), Some(decision), tools) ==
      HttpReply(200, map["response" := Str(NotUnderstood)])
  {
  }
}
