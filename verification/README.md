# Stock Market Agent: the dispatch and display rules, in Dafny

The Stock Market Agent is a Flask backend and a React page. The page sends a
free-text question to `POST /ask_agent`. The backend asks a language model which
of three stock helpers to call. It reads the model's answer for a fixed marker
phrase and a ticker, calls that helper, and replies with `{"response": ...}`.
The page then shows the reply in a box whose colour depends on the reply's
`color` field.

This project models the two parts of that flow that are real logic:

- **The dispatch in `ask_agent`** (`Agent.dfy`, built on `Text.dfy`):
  - the guard that rejects a missing or empty query with HTTP 400;
  - `strip()` of the model's decision text;
  - the ordered, case-sensitive tests for `CALL get_stock_price`,
    `CALL analyze_stock` and `CALL get_finance_report`;
  - the ticker `decision.split()[-1]`;
  - the "couldn't understand" fallback;
  - the `{"response": ...}` wrapper.
- **The page's rules** (`App.dfy`):
  - the blank-query guard of `handleAskAgent`;
  - the state that handler updates: `loading`, and `response` as either the
    reply body or the fallback object;
  - `getBoxColor`.

`Text.dfy` has Python's substring test, and the index scans behind Python's
`str.strip()` / `str.split()` and JavaScript's `trim()`. The scans take the
whitespace class as a parameter. `Agent.PySpace` is the set Python's
`str.isspace()` uses. `App.JsSpace` is ECMAScript's WhiteSpace and
LineTerminator set. The two sets differ: U+001C–U+001F and U+0085 are
whitespace only to Python, and U+FEFF only to JavaScript.

`Json.dfy` holds the JSON values the two sides exchange. `Wrappers.dfy` holds
`Option`, used for JavaScript's `null`, for an absent `query` key and for a
decision call that raised.

Four facts about the code shape the model:

- There are exactly three markers. The third is `CALL get_finance_report`.
- `analyze_stock` returns the model's reply unchanged.
- The guard is `not query`, so a query of spaces is dispatched (`Agent.Route`).
  Only the page refuses blank queries (`App.IsBlank`).
- The language-model call that produces the decision (backend/app.py:110) is
  outside any `try`. When it raises, Flask answers HTTP 500. The model
  represents this outcome as a missing decision, `None`.

## Model

| member | source | states |
|---|---|---|
| `Text.Contains` | backend/app.py:112 | `m in s` holds exactly when `m` occurs at some offset of `s` |
| `Text.Strip` | backend/app.py:110 | the stripped text sits in the input with only whitespace around it, starts and ends with non-whitespace, and is empty exactly when the input is all whitespace |
| `Text.FramedUnique` | backend/app.py:110 | only one part of a string meets Strip's contract, so that contract fixes the result |
| `Text.StripIgnoresMargins` | backend/app.py:110 | adding whitespace before or after a text does not change its stripped form |
| `Text.StripTight` | backend/app.py:110 | stripping a text with no whitespace at either end returns it unchanged |
| `Text.StripFramed` | backend/app.py:110 | any part of a text that has only whitespace around it and no whitespace at either end is its stripped form |
| `Text.ContainsStrip` | backend/app.py:110-118 | a marker with no whitespace at either end occurs in the stripped text exactly when it occurs in the raw text |
| `Text.Split` | backend/app.py:113 | `split()` yields non-empty tokens free of whitespace, and yields no token exactly when the text is all whitespace; the text is a whitespace run, the first token, a non-empty whitespace run, the next token, and so on, ending with a whitespace run (`Gapped`) |
| `Text.GappedSplit` | backend/app.py:113 | any token sequence laid out in the text as `Gapped` describes is exactly `split()` of the text, so the layout fixes the result |
| `Text.SplitJoin` | backend/app.py:113 | splitting tokens joined by single spaces gives the same tokens back |
| `Text.TwoTokens` | backend/app.py:113 | a text with non-whitespace, then whitespace, then non-whitespace splits into at least two tokens |
| `Text.LastToken` | backend/app.py:113 | `split()[-1]` is a token that is followed only by whitespace and preceded by whitespace or the start of the text |
| `Text.LastWordUnique` | backend/app.py:113 | a text has at most one such last token |
| `Text.LastWordOfStrip` | backend/app.py:110-113 | the last token of the stripped text is the last token of the raw text |
| `Text.ContainsHead` | backend/app.py:112-118 | a text that contains a marker contains the marker's first character |
| `Text.ContainsInfix` | backend/app.py:112-118 | a marker occurs in any text built as prefix + marker + suffix |
| `Agent.MarkerSplits` | backend/app.py:112-119 | a text holding any marker splits into at least two tokens, so `split()[-1]` never fails on a matched decision |
| `Agent.ParseDecision` | backend/app.py:112-122 | the price marker wins; analysis is chosen only without the price marker; finance report only without both others; otherwise Unknown. A ticker is the last token |
| `Agent.Classify` | backend/app.py:110-122 | the markers of the raw decision text decide the command in the order price, analysis, finance report, and no marker means Unknown; `strip()` loses none of them. A command's ticker is the last whitespace-delimited token of the raw text |
| `Agent.ClassifyIgnoresMargins` | backend/app.py:110-119 | whitespace around the decision changes neither the command nor the ticker |
| `Agent.PriceDecision` | backend/app.py:110-114 | any decision that contains the price marker asks for the price of its last token, whatever other markers it holds |
| `Agent.PriceOfFinalToken` | backend/app.py:110-114 | for any text before the price marker and between it and a final token, other markers included, the request is for the price of that token, taken verbatim with its punctuation |
| `Agent.ExactMarkerTicker` | backend/app.py:110-122 | a decision that is exactly one of the three markers, with no ticker after it, is that marker's command, with the marker's own second word (`get_stock_price`, `analyze_stock`, `get_finance_report`) as ticker |
| `Agent.LowerCaseMarkerUnknown` | backend/app.py:110-122 | a decision without a capital C, such as `call get_stock_price AAPL`, matches no marker (the tests are case-sensitive) and is Unknown |
| `Agent.UnknownAnswer` | backend/app.py:121-122 | the model's `UNKNOWN` answer is Unknown |
| `Agent.Route` | backend/app.py:89-110 | only a missing or empty query is rejected, so a query of spaces passes; a rejected query never reaches the model call; an accepted query whose model call raises is not classified |
| `Agent.AskAgent` | backend/app.py:88-124 | status 400 exactly for a missing or empty query, with body `{"error": "Query is required"}`; status 500 with no JSON body exactly when the query is accepted and the model call raises; otherwise, when the call returns, status 200 with the dispatched value under the only key `response` |
| `Agent.DispatchReply` | backend/app.py:110-124 | for a non-empty query and a returned decision whose last token is `t`: the price marker gives `get_stock_price(t)`; otherwise the analysis marker gives `analyze_stock(t)`; otherwise the report marker gives `get_finance_report(t)`; with no marker, the fixed message; always under `response` with status 200 |
| `Agent.NotUnderstoodReply` | backend/app.py:112-124 | a returned decision holding none of the three markers gets HTTP 200 and `{"response": "I couldn't understand your request. Please try again."}` |
| `App.IsBlank` | frontend/src/App.jsx:10 | `!query.trim()` holds exactly when every character is JavaScript whitespace, and always for the empty query |
| `App.BoxColor` | frontend/src/App.jsx:23-29 | green, yellow or red exactly when the response's `color` is the string GREEN, YELLOW or RED; gray for a null response and for any other or missing colour |
| `App.Settled` | frontend/src/App.jsx:14-19 | the stored response is the reply body when axios resolves (2xx), and otherwise the fallback object, which has no `color` |
| `App.AgentView.constructor` | frontend/src/App.jsx:5-7 | the page starts with an empty query, a null response and no request in flight |
| `App.AgentView.SetQuery` | frontend/src/App.jsx:34 | typing replaces the query and leaves response and loading alone |
| `App.AgentView.HandleAskAgent` | frontend/src/App.jsx:9-21 | a blank query sends nothing and changes no state; otherwise the request goes out, the settled response is stored and loading ends false |
| `App.SentQueryAccepted` | frontend/src/App.jsx:10-15 | any query the page sends is non-empty, so the backend never answers 400: it answers 200, and axios resolves, exactly when the decision call returns |
| `App.BackendRepliesGray` | frontend/src/App.jsx:23-29 | no backend body (400, 500 or 200) has a top-level `color`, so every reply renders gray |
| `App.AskedQueryRendersGray` | frontend/src/App.jsx:14-28 | after a request settles, with any backend reply (including a 500 from a failed decision call) or with no reply, the box is gray |

## Left out

- The three stock helpers `get_stock_price`, `analyze_stock` and
  `get_finance_report` (backend/app.py:20-82) read market data through yfinance
  and call the language model. Here they are opaque functions in `Agent.Tools`.
  Their `.2f` formatting and the yearly-change arithmetic are floating point
  and are not modelled.
- The language model call (backend/app.py:17, 79, 110) and the decision prompt
  (backend/app.py:95-108). The decision text is an input of `Agent.Classify`.
  `Agent.AskAgent` takes the call's outcome: the text, or `None` when the call
  raises.
- The body of the HTTP 500 reply that Flask sends when the decision call
  (backend/app.py:110) raises. Flask sends an HTML error page there, not JSON.
  The model gives that reply an empty body.
- Flask and CORS setup, dotenv, `app.run`, JSON parsing of the request and
  serialisation of the reply (backend/app.py:1-17, 86-88, 127-128).
- A `query` that is not a string, and a request body that is not JSON. The
  model's `query` is a string or absent.
- The axios POST and its `await` (frontend/src/App.jsx:14-19). How the request
  settles is an input, `App.Fetch`.
- App.AgentView.HandleAskAgent: its contract states only the state after the
  request settles. The in-flight state (`loading` true, `response` null) is
  set in the body but appears in no postcondition. React's batching of state
  updates is not modelled.
- JSX rendering, including the "Processing..." label and the detailed-analysis
  box (frontend/src/App.jsx:31-38).
