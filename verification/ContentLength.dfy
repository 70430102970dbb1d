/** Runs of setter calls, and what they guarantee about Content-Length (section 8.6 of RFC 9110). */
module ContentLength {
  import opened HttpTokens
  import opened HeaderSafety
  import opened MessageHeaders
  import RequestGrammar
  import RequestTheorems
  import ResponseGrammar
  import ResponseTheorems
  import opened SetterRuns
  import opened Setters

  /** The call leaves Content-Length to `set_body`. */
  predicate LeavesLength(s: Setter) {
    s.SetHeader? ==> s.name != "Content-Length"
  }

  predicate SafeSetter(s: Setter) {
    && (s.SetHeader? ==> SafeName(s.name) && SafeValue(s.value))
    && (s.SetUri? ==> RequestGrammar.ValidUri(s.uri))
  }

  lemma StepAgrees(c: Content, s: Setter)
    requires LengthAgrees(c.headers, c.body) && LeavesLength(s)
    ensures var next := ApplyContent(c, s); LengthAgrees(next.headers, next.body)
  {
    if s.SetBody? {
      WithLengthAgrees(c.headers, s.body);
    }
  }

  lemma StepSafe(c: Content, s: Setter)
    requires SafeNames(c.headers) && SafeValues(c.headers) && SafeSetter(s)
    ensures var next := ApplyContent(c, s); SafeNames(next.headers) && SafeValues(next.headers)
  {
    if s.SetBody? {
      WithLengthSafe(c.headers, s.body);
    }
  }

  lemma {:induction false} RequestRunAgrees(r: RequestGrammar.Request, setters: seq<Setter>)
    requires LengthAgrees(r.headers, r.body)
    requires forall i | 0 <= i < |setters| :: LeavesLength(setters[i])
    ensures var result := RunRequest(r, setters); LengthAgrees(result.headers, result.body)
    decreases |setters|
  {
    if setters != [] {
      StepAgrees(Content(r.headers, r.body), setters[0]);
      RequestRunAgrees(ApplyRequest(r, setters[0]), setters[1..]);
    }
  }

  lemma {:induction false} ResponseRunAgrees(r: ResponseGrammar.Response, setters: seq<Setter>)
    requires LengthAgrees(r.headers, r.body)
    requires forall i | 0 <= i < |setters| :: LeavesLength(setters[i])
    ensures var result := RunResponse(r, setters); LengthAgrees(result.headers, result.body)
    decreases |setters|
  {
    if setters != [] {
      StepAgrees(Content(r.headers, r.body), setters[0]);
      ResponseRunAgrees(ApplyResponse(r, setters[0]), setters[1..]);
    }
  }

  lemma {:induction false} RequestRunSafe(r: RequestGrammar.Request, setters: seq<Setter>)
    requires SafeNames(r.headers) && SafeValues(r.headers)
    requires forall i | 0 <= i < |setters| :: SafeSetter(setters[i])
    requires RequestGrammar.ValidUri(r.uri) || exists i :: 0 <= i < |setters| && setters[i].SetUri?
    ensures RequestTheorems.SafeRequest(RunRequest(r, setters))
    decreases |setters|
  {
    if setters != [] {
      StepSafe(Content(r.headers, r.body), setters[0]);
      var next := ApplyRequest(r, setters[0]);
      if !RequestGrammar.ValidUri(next.uri) {
        var i :| 0 <= i < |setters| && setters[i].SetUri?;
        assert i > 0 && setters[1..][i - 1].SetUri?;
      }
      RequestRunSafe(next, setters[1..]);
    }
  }

  lemma {:induction false} ResponseRunSafe(r: ResponseGrammar.Response, setters: seq<Setter>)
    requires SafeNames(r.headers) && SafeValues(r.headers)
    requires forall i | 0 <= i < |setters| :: SafeSetter(setters[i])
    ensures ResponseTheorems.SafeResponse(RunResponse(r, setters))
    decreases |setters|
  {
    if setters != [] {
      StepSafe(Content(r.headers, r.body), setters[0]);
      ResponseRunSafe(ApplyResponse(r, setters[0]), setters[1..]);
    }
  }

  /** After any run of setter calls from a default request that leave Content-Length to `set_body`,
      the header agrees with the body; if the arguments are safe and the URI has been set, the
      receiver of the printed request reads the same, still agreeing, message. */
  lemma RequestLength(setters: seq<Setter>)
    requires forall i | 0 <= i < |setters| :: LeavesLength(setters[i])
    ensures var r := RunRequest(RequestGrammar.DEFAULT_REQUEST, setters);
            && LengthAgrees(r.headers, r.body)
            && ((forall i | 0 <= i < |setters| :: SafeSetter(setters[i]))
                && (exists i :: 0 <= i < |setters| && setters[i].SetUri?)
                ==> RequestGrammar.ParseRequest(RequestGrammar.PrintRequest(r)) == Ok(r))
  {
    RequestRunAgrees(RequestGrammar.DEFAULT_REQUEST, setters);
    if && (forall i | 0 <= i < |setters| :: SafeSetter(setters[i]))
       && (exists i :: 0 <= i < |setters| && setters[i].SetUri?) {
      RequestRunSafe(RequestGrammar.DEFAULT_REQUEST, setters);
      RequestTheorems.RoundTrip(RunRequest(RequestGrammar.DEFAULT_REQUEST, setters));
    }
  }

  /** The same for responses, which have no URI to set. */
  lemma ResponseLength(setters: seq<Setter>)
    requires forall i | 0 <= i < |setters| :: LeavesLength(setters[i])
    ensures var r := RunResponse(ResponseGrammar.DEFAULT_RESPONSE, setters);
            && LengthAgrees(r.headers, r.body)
            && ((forall i | 0 <= i < |setters| :: SafeSetter(setters[i]))
                ==> ResponseGrammar.ParseResponse(ResponseGrammar.PrintResponse(r)) == Ok(r))
  {
    ResponseRunAgrees(ResponseGrammar.DEFAULT_RESPONSE, setters);
    if forall i | 0 <= i < |setters| :: SafeSetter(setters[i]) {
      ResponseRunSafe(ResponseGrammar.DEFAULT_RESPONSE, setters);
      ResponseTheorems.RoundTrip(RunResponse(ResponseGrammar.DEFAULT_RESPONSE, setters));
    }
  }
}
