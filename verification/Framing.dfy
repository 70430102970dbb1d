/** How a byte stream is cut back into messages: chunks are glued together until a short one. */
module Framing {
  const CHUNK_SIZE: nat := 1024

  /** What one call of `recv` yields: bytes, an orderly close, or a socket error. */
  datatype RecvResult = Data(bytes: string) | Closed | Failed(code: int)

  /** The result of receiving a message. `Waiting` means that every result so far has been consumed
      and the call is still blocked in `recv`. */
  datatype Received = Message(text: string) | ConnectionReset | SocketError(code: int) | Waiting

  /** `recv` returns between 1 and CHUNK_SIZE bytes when it returns any. */
  predicate Possible(r: RecvResult) {
    r.Data? ==> 1 <= |r.bytes| <= CHUNK_SIZE
  }

  predicate Full(r: RecvResult) {
    r.Data? && |r.bytes| == CHUNK_SIZE
  }

  /** The number of full chunks before anything else. */
  function FullPrefix(script: seq<RecvResult>): (n: nat)
    ensures n <= |script|
    ensures forall i | 0 <= i < n :: Full(script[i])
    ensures n < |script| ==> !Full(script[n])
  {
    if script != [] && Full(script[0]) then
      var n := FullPrefix(script[1..]);
      assert forall i | 1 <= i < n + 1 :: script[i] == script[1..][i - 1];
      n + 1
    else 0
  }

  function Glue(script: seq<RecvResult>): string {
    if script == [] then ""
    else (if script[0].Data? then script[0].bytes else "") + Glue(script[1..])
  }

  /** The message is what precedes the first result that is not a full chunk, glued together with
      that result if it is a chunk; later results are left alone. */
  function Outcome(script: seq<RecvResult>): (Received, seq<RecvResult>) {
    var n := FullPrefix(script);
    if n == |script| then (Waiting, [])
    else
      (match script[n]
       case Data(bytes) => Message(Glue(script[..n]) + bytes)
       case Closed => ConnectionReset
       case Failed(code) => SocketError(code),
       script[n + 1..])
  }

  /** What ends a message, spelled out: after any number of full chunks a short chunk completes it, and a
      close or an error discards what has been received; later results are left alone. While there are
      only full chunks the call waits. */
  lemma OutcomeSpelled(full: seq<RecvResult>, r: RecvResult, later: seq<RecvResult>)
    requires forall i | 0 <= i < |full| :: full[i].Data? && |full[i].bytes| == 1024
    ensures Outcome(full) == (Waiting, [])
    ensures r.Data? && |r.bytes| != 1024 ==> Outcome(full + [r] + later) == (Message(Glue(full) + r.bytes), later)
    ensures r == Closed ==> Outcome(full + [r] + later) == (ConnectionReset, later)
    ensures r.Failed? ==> Outcome(full + [r] + later) == (SocketError(r.code), later)
  {
    hide Glue, FullPrefix;
    FullPrefixIs(full, |full|);
    if !r.Data? || |r.bytes| != 1024 {
      var all, n := full + [r] + later, |full|;
      FullPrefixIs(all, n);
      assert all[..n] == full && all[n] == r && all[n + 1..] == later;
    }
  }

  /** A message is received exactly when some result is not a full chunk and the first such result is a
      chunk; its text is that of the chunks up to there. */
  lemma MessageIff(script: seq<RecvResult>)
    ensures Outcome(script).0.Message? <==>
              exists n: nat ::
                && n < |script|
                && (forall i | 0 <= i < n :: script[i].Data? && |script[i].bytes| == 1024)
                && script[n].Data? && |script[n].bytes| != 1024
  {
    hide Glue, FullPrefix;
    var m := FullPrefix(script);
    if Outcome(script).0.Message? {
      assert m < |script| && script[m].Data?;
    }
    forall n: nat | && n < |script|
                    && (forall i | 0 <= i < n :: script[i].Data? && |script[i].bytes| == 1024)
                    && script[n].Data? && |script[n].bytes| != 1024
      ensures Outcome(script).0.Message?
    {
      FullPrefixIs(script, n);
    }
  }

  /** The chunks a text is sent in. */
  predicate Chunks(script: seq<RecvResult>) {
    forall i | 0 <= i < |script| :: script[i].Data? && Possible(script[i])
  }

  /** All chunks but the last are full, and the last is short. */
  predicate EndsShort(script: seq<RecvResult>) {
    && script != []
    && (forall i | 0 <= i < |script| - 1 :: Full(script[i]))
    && !Full(script[|script| - 1])
  }

  lemma GlueNone()
    ensures Glue([]) == ""
  {
  }

  lemma {:induction false} GlueAppend(script: seq<RecvResult>, r: RecvResult)
    ensures Glue(script + [r]) == Glue(script) + if r.Data? then r.bytes else ""
  {
    if script == [] {
      assert [r][1..] == [];
    } else {
      GlueAppend(script[1..], r);
      assert (script + [r])[1..] == script[1..] + [r];
      var one, more := if script[0].Data? then script[0].bytes else "", if r.Data? then r.bytes else "";
      assert one + (Glue(script[1..]) + more) == (one + Glue(script[1..])) + more;
    }
  }

  lemma FullPrefixIs(script: seq<RecvResult>, n: nat)
    requires n <= |script| && (forall i | 0 <= i < n :: Full(script[i])) && (n < |script| ==> !Full(script[n]))
    ensures FullPrefix(script) == n
  {
    var m := FullPrefix(script);
    assert m <= n && n <= m;
  }

  /** Chunks that end short are received as one message, and nothing after them is touched. */
  lemma Delivered(script: seq<RecvResult>, later: seq<RecvResult>)
    requires Chunks(script) && EndsShort(script)
    ensures Outcome(script + later) == (Message(Glue(script)), later)
  {
    var n, all := |script| - 1, script + later;
    FullPrefixIs(all, n);
    assert all[..n] == script[..n] && all[n + 1..] == later;
    GlueAppend(script[..n], script[n]);
    assert script[..n] + [script[n]] == script;
  }

  /** The chunks of a text are received as exactly that text precisely when they end short. */
  lemma DeliveredIff(script: seq<RecvResult>)
    requires Chunks(script)
    ensures Outcome(script) == (Message(Glue(script)), []) <==> EndsShort(script)
  {
    if EndsShort(script) {
      Delivered(script, []);
      assert script + [] == script;
    }
    if Outcome(script) == (Message(Glue(script)), []) {
      var n := FullPrefix(script);
      assert n < |script| && |script[n + 1..]| == 0;
      assert n == |script| - 1;
    }
  }

  lemma {:induction false} FullLength(script: seq<RecvResult>)
    requires forall i | 0 <= i < |script| :: Full(script[i])
    ensures |Glue(script)| == CHUNK_SIZE * |script|
  {
    if script != [] {
      FullLength(script[1..]);
    }
  }

  /** The chunks of a sender that fills every chunk it can. */
  function Split(text: string): seq<RecvResult> {
    if text == "" then []
    else if |text| <= CHUNK_SIZE then [Data(text)]
    else [Data(text[..CHUNK_SIZE])] + Split(text[CHUNK_SIZE..])
  }

  lemma {:induction false} SplitChunks(text: string)
    requires |text| % CHUNK_SIZE != 0
    ensures Chunks(Split(text)) && EndsShort(Split(text)) && Glue(Split(text)) == text
    decreases |text|
  {
    if |text| <= CHUNK_SIZE {
      assert Glue([Data(text)]) == text + Glue([]);
    } else {
      var first, rest := text[..CHUNK_SIZE], text[CHUNK_SIZE..];
      SplitChunks(rest);
      var others := Split(rest);
      assert Split(text) == [Data(first)] + others;
      assert Split(text)[1..] == others;
      assert forall i | 1 <= i < |others| + 1 :: Split(text)[i] == others[i - 1];
      assert text == first + rest;
    }
  }

  /** The text arrives in these chunks, and is received from them with nothing left over. */
  predicate ReceivedAlone(script: seq<RecvResult>, text: string) {
    Chunks(script) && Glue(script) == text && Outcome(script) == (Message(text), [])
  }

  lemma SplitReceived(text: string)
    requires |text| % CHUNK_SIZE != 0
    ensures ReceivedAlone(Split(text), text)
  {
    SplitChunks(text);
    DeliveredIff(Split(text));
  }

  lemma ReceivedLength(script: seq<RecvResult>, text: string)
    requires ReceivedAlone(script, text)
    ensures |text| % CHUNK_SIZE != 0
  {
    hide Outcome, Glue;
    DeliveredIff(script);
    var n := |script| - 1;
    FullLength(script[..n]);
    GlueAppend(script[..n], script[n]);
    assert script[..n] + [script[n]] == script;
    assert |text| == CHUNK_SIZE * n + |script[n].bytes|;
  }

  /** Whether a text can be received as one message at all depends on its length alone: a text whose
      length is a multiple of the chunk size never is, however the network cuts it. */
  lemma DeliverableIff(text: string)
    ensures (exists script: seq<RecvResult> :: ReceivedAlone(script, text)) <==> |text| % 1024 != 0
  {
    hide Outcome, Glue, ReceivedAlone;
    if |text| % CHUNK_SIZE != 0 {
      SplitReceived(text);
    }
    forall script: seq<RecvResult> | ReceivedAlone(script, text)
      ensures |text| % CHUNK_SIZE != 0
    {
      ReceivedLength(script, text);
    }
  }
}
