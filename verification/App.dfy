/** The React page: the send guard of the "Ask AI" handler, the state that
    handler updates, and the colour of the recommendation box. */
module App {
  import opened Wrappers
  import opened Json
  import opened Text
  import Agent

  /** The characters JavaScript's `String.prototype.trim()` removes: the
      WhiteSpace and LineTerminator characters of ECMAScript. */
  predicate JsSpace(c: char) {
    ('\t' <= c <= '\r') || c == ' ' || c == '\U{A0}' || c == '\U{1680}'
    || ('\U{2000}' <= c <= '\U{200A}') || c == '\U{2028}' || c == '\U{2029}'
    || c == '\U{202F}' || c == '\U{205F}' || c == '\U{3000}' || c == '\U{FEFF}'
  }

  /** `!query.trim()`: the query is empty once trimmed, which happens exactly
      when every character of it is whitespace. */
  function IsBlank(query: string): (b: bool)
    ensures b <==> AllSpace(query, JsSpace)
    ensures query == "" ==> b
  {
    Strip(query, JsSpace) == []
  }

  // ---------------------------------------------------------------------------
  // The recommendation box colour
  // ---------------------------------------------------------------------------

  const Gray: string := "bg-gray-300"
  const Green: string := "bg-green-500"
  const Yellow: string := "bg-yellow-500"
  const Red: string := "bg-red-500"

  /** The response object has a `color` property equal to the string `c`. */
  predicate HasColor(response: Option<map<string, Value>>, c: string) {
    response.Some? && "color" in response.value && response.value["color"] == Str(c)
  }

  /** `getBoxColor`: green, yellow or red exactly when the response's colour is
      "GREEN", "YELLOW" or "RED"; gray for no response and for any other or
      missing colour. */
  function BoxColor(response: Option<map<string, Value>>): (cls: string)
    ensures cls == Green <==> HasColor(response, "GREEN")
    ensures cls == Yellow <==> HasColor(response, "YELLOW")
    ensures cls == Red <==> HasColor(response, "RED")
    ensures cls == Gray <==>
      !HasColor(response, "GREEN") && !HasColor(response, "YELLOW") && !HasColor(response, "RED")
  {
    if response.None? then Gray
    else if HasColor(response, "GREEN") then Green
    else if HasColor(response, "YELLOW") then Yellow
    else if HasColor(response, "RED") then Red
    else Gray
  }

  // ---------------------------------------------------------------------------
  // The request and its outcome
  // ---------------------------------------------------------------------------

  /** How the POST settles: axios resolves with the backend's reply, or rejects
      when no reply arrives. */
  datatype Fetch = Replied(reply: Agent.HttpReply) | NoReply

  /** The object stored when the request fails. */
  const Fallback: map<string, Value> :=
    map["recommendation" := Str("ERROR"), "reason" := Str("Could not fetch data.")]

  /** axios resolves only for a 2xx status; any other status rejects like a
      network failure. */
  predicate Resolves(f: Fetch) {
    f.Replied? && 200 <= f.reply.status < 300
  }

  /** What the handler stores once the request settles: the reply body when
      axios resolves, the fallback object when it rejects. */
  function Settled(f: Fetch): (r: map<string, Value>)
    ensures Resolves(f) ==> r == f.reply.body
    ensures !Resolves(f) ==> r == Fallback && "color" !in r
  {
    if Resolves(f) then f.reply.body else Fallback
  }

  /** The page state: the text in the input, the last response and whether a
      request is in flight. */
  class AgentView {
    var query: string
    var response: Option<map<string, Value>>
    var loading: bool

    constructor ()
      ensures query == "" && response == None && !loading
    {
      query := "";
      response := None;
      loading := false;
    }

    /** The input's change handler. */
    method SetQuery(text: string)
      modifies this
      ensures query == text && response == old(response) && loading == old(loading)
    {
      query := text;
    }

    /** `handleAskAgent`. A blank query sends nothing and changes nothing.
        Otherwise the handler raises `loading`, clears the response, sends the
        query untrimmed, stores what the request settles to, and lowers
        `loading`; `sent` reports whether the request went out. */
    method HandleAskAgent(f: Fetch) returns (sent: bool)
      modifies this
      ensures sent <==> !IsBlank(old(query))
      ensures query == old(query)
      ensures !sent ==> response == old(response) && loading == old(loading)
      ensures sent ==> response == Some(Settled(f)) && !loading
    {
      if IsBlank(query) {
        return false;
      }
      loading := true;
      response := None;
      response := Some(Settled(f));
      loading := false;
      sent := true;
    }
  }

  // ---------------------------------------------------------------------------
  // Frontend and backend together
  // ---------------------------------------------------------------------------

  /** A query the page sends is never empty, so the backend never answers it
      with HTTP 400: the reply is 200, and axios resolves, exactly when the
      model call returns. */
  lemma SentQueryAccepted(query: string, decision: Option<string>, tools: Agent.Tools)
    requires !IsBlank(query)
    ensures Agent.AskAgent(Some(query), decision, tools).status == 200 <==> decision.Some?
    ensures Resolves(Replied(Agent.AskAgent(Some(query), decision, tools))) <==> decision.Some?
  {
  }

  /** No backend reply has a top-level `color` key, since every body holds only
      "response", only "error" or nothing; so the box is gray for all of them. */
  lemma BackendRepliesGray(query: Option<string>, decision: Option<string>, tools: Agent.Tools)
    ensures BoxColor(Some(Agent.AskAgent(query, decision, tools).body)) == Gray
  {
    var body := Agent.AskAgent(query, decision, tools).body;
    assert "color" !in body;
  }

  /** Whatever the request settles to, a reply of the backend or a failure, the
      box is gray afterwards. */
  lemma AskedQueryRendersGray(query: string, decision: Option<string>, tools: Agent.Tools, f: Fetch)
    requires f == NoReply || f == Replied(Agent.AskAgent(Some(query), decision, tools))
    ensures BoxColor(Some(Settled(f))) == Gray
  {
    if Resolves(f) {
      BackendRepliesGray(Some(query), decision, tools);
    }
  }
}
