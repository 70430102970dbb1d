/** Runs of setter calls: for each part of a message the last call that sets it decides. */
module SetterRuns {
  import opened Setters
  import RequestGrammar
  import ResponseGrammar

  function RunRequest(r: RequestGrammar.Request, setters: seq<Setter>): RequestGrammar.Request
    decreases |setters|
  {
    if setters == [] then r else RunRequest(ApplyRequest(r, setters[0]), setters[1..])
  }

  function RunResponse(r: ResponseGrammar.Response, setters: seq<Setter>): ResponseGrammar.Response
    decreases |setters|
  {
    if setters == [] then r else RunResponse(ApplyResponse(r, setters[0]), setters[1..])
  }

  /** The call sets or erases the header of this name. */
  predicate Touches(s: Setter, name: string) {
    (s.SetHeader? && s.name == name) || (s.SetBody? && name == "Content-Length")
  }

  predicate Untouched(setters: seq<Setter>, name: string) {
    forall i | 0 <= i < |setters| :: !Touches(setters[i], name)
  }

  /** What is left alone by all calls keeps its value. */
  lemma {:induction false} RequestKeeps(r: RequestGrammar.Request, setters: seq<Setter>)
    ensures var result := RunRequest(r, setters);
            && ((forall i | 0 <= i < |setters| :: !setters[i].SetBody?) ==> result.body == r.body)
            && ((forall i | 0 <= i < |setters| :: !setters[i].SetMethod?) ==> result.method_ == r.method_)
            && ((forall i | 0 <= i < |setters| :: !setters[i].SetUri?) ==> result.uri == r.uri)
            && ((forall i | 0 <= i < |setters| :: !setters[i].SetVersion?) ==> result.version == r.version)
    decreases |setters|
  {
    if setters != [] {
      RequestKeeps(ApplyRequest(r, setters[0]), setters[1..]);
    }
  }

  lemma {:induction false} RequestKeepsHeader(r: RequestGrammar.Request, setters: seq<Setter>, name: string)
    requires Untouched(setters, name)
    ensures var result := RunRequest(r, setters);
            && (name in result.headers <==> name in r.headers)
            && (name in r.headers ==> result.headers[name] == r.headers[name])
    decreases |setters|
  {
    if setters != [] {
      assert !Touches(setters[0], name);
      RequestKeepsHeader(ApplyRequest(r, setters[0]), setters[1..], name);
    }
  }

  lemma {:induction false} RequestSplit(r: RequestGrammar.Request, before: seq<Setter>, after: seq<Setter>)
    ensures RunRequest(r, before + after) == RunRequest(RunRequest(r, before), after)
    decreases |before|
  {
    if before == [] {
      assert before + after == after;
    } else {
      assert (before + after)[1..] == before[1..] + after;
      RequestSplit(ApplyRequest(r, before[0]), before[1..], after);
    }
  }

  /** The last call that sets something decides it, whatever came before and whatever else comes after. */
  lemma RequestLastSetter(r: RequestGrammar.Request, before: seq<Setter>, s: Setter, after: seq<Setter>)
    ensures var result := RunRequest(r, before + [s] + after);
            match s
            case SetBody(body) => (forall i | 0 <= i < |after| :: !after[i].SetBody?) ==> result.body == body
            case SetHeader(name, value) =>
              Untouched(after, name) ==> name in result.headers && result.headers[name] == value
            case SetMethod(m) => (forall i | 0 <= i < |after| :: !after[i].SetMethod?) ==> result.method_ == m
            case SetUri(uri) => (forall i | 0 <= i < |after| :: !after[i].SetUri?) ==> result.uri == uri
            case SetVersion(v) => (forall i | 0 <= i < |after| :: !after[i].SetVersion?) ==> result.version == v
            case SetStatus(_) => result == RunRequest(r, before + after)
  {
    hide RunRequest, Touches;
    var here := RunRequest(r, before);
    RequestSplit(r, before + [s], after);
    RequestSplit(r, before, [s]);
    RequestSplit(r, before, after);
    RequestOne(here, s);
    RequestKeeps(ApplyRequest(here, s), after);
    if s.SetHeader? && Untouched(after, s.name) {
      RequestKeepsHeader(ApplyRequest(here, s), after, s.name);
    }
  }

  lemma RequestOne(r: RequestGrammar.Request, s: Setter)
    ensures RunRequest(r, [s]) == ApplyRequest(r, s)
  {
    assert [s][1..] == [];
  }

  lemma {:induction false} ResponseKeeps(r: ResponseGrammar.Response, setters: seq<Setter>)
    ensures var result := RunResponse(r, setters);
            && ((forall i | 0 <= i < |setters| :: !setters[i].SetBody?) ==> result.body == r.body)
            && ((forall i | 0 <= i < |setters| :: !setters[i].SetStatus?) ==> result.status == r.status)
            && ((forall i | 0 <= i < |setters| :: !setters[i].SetVersion?) ==> result.version == r.version)
    decreases |setters|
  {
    if setters != [] {
      ResponseKeeps(ApplyResponse(r, setters[0]), setters[1..]);
    }
  }

  lemma {:induction false} ResponseKeepsHeader(r: ResponseGrammar.Response, setters: seq<Setter>, name: string)
    requires Untouched(setters, name)
    ensures var result := RunResponse(r, setters);
            && (name in result.headers <==> name in r.headers)
            && (name in r.headers ==> result.headers[name] == r.headers[name])
    decreases |setters|
  {
    if setters != [] {
      assert !Touches(setters[0], name);
      ResponseKeepsHeader(ApplyResponse(r, setters[0]), setters[1..], name);
    }
  }

  lemma {:induction false} ResponseSplit(r: ResponseGrammar.Response, before: seq<Setter>, after: seq<Setter>)
    ensures RunResponse(r, before + after) == RunResponse(RunResponse(r, before), after)
    decreases |before|
  {
    if before == [] {
      assert before + after == after;
    } else {
      assert (before + after)[1..] == before[1..] + after;
      ResponseSplit(ApplyResponse(r, before[0]), before[1..], after);
    }
  }

  lemma ResponseLastSetter(r: ResponseGrammar.Response, before: seq<Setter>, s: Setter, after: seq<Setter>)
    ensures var result := RunResponse(r, before + [s] + after);
            match s
            case SetBody(body) => (forall i | 0 <= i < |after| :: !after[i].SetBody?) ==> result.body == body
            case SetHeader(name, value) =>
              Untouched(after, name) ==> name in result.headers && result.headers[name] == value
            case SetStatus(status) => (forall i | 0 <= i < |after| :: !after[i].SetStatus?) ==> result.status == status
            case SetVersion(v) => (forall i | 0 <= i < |after| :: !after[i].SetVersion?) ==> result.version == v
            case _ => result == RunResponse(r, before + after)
  {
    hide RunResponse, Touches;
    var here := RunResponse(r, before);
    ResponseSplit(r, before + [s], after);
    ResponseSplit(r, before, [s]);
    ResponseSplit(r, before, after);
    ResponseOne(here, s);
    ResponseKeeps(ApplyResponse(here, s), after);
    if s.SetHeader? && Untouched(after, s.name) {
      ResponseKeepsHeader(ApplyResponse(here, s), after, s.name);
    }
  }

  lemma ResponseOne(r: ResponseGrammar.Response, s: Setter)
    ensures RunResponse(r, [s]) == ApplyResponse(r, s)
  {
    assert [s][1..] == [];
  }
}
