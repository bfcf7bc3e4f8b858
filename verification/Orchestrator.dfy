/** One poll round of the bouncer (ground-station/include/egress_orchestrator.h, tick): fetch a page, scan it,
    decode each frame, transmit it, acknowledge it. */
module Orchestrator {
  import opened Words
  import opened EgressJson
  import opened EgressHex

  const MAX_PER_TICK: nat := 10
  const FRAME_SIZE: nat := 112
  const RESPONSE_BUF_SIZE: nat := 8192

  /** How the GET went, and for record i whether its transmission succeeds and what its POST returns: None is a
      transport failure, otherwise the status code. */
  datatype Fetched = FetchFailed | Response(status: int, body: string)

  datatype Outcomes = Outcomes(tx: nat -> bool, ack: nat -> Option<int>)

  /** What the tick does to the world: hand a frame to the transmitter, or post an acknowledgement. */
  datatype Call = Send(frame: Bytes, ok: bool) | Post(id: string, hash: string, answer: Option<int>)

  /** The number tick returns, and its calls in the order it makes them. */
  datatype Trace = Trace(count: int, calls: seq<Call>)

  /** The frames that went out, and the acknowledgements that were made. */
  function SentIn(calls: seq<Call>): seq<Bytes> {
    if calls == [] then []
    else
      var c := calls[|calls| - 1];
      SentIn(calls[..|calls| - 1]) + if c.Send? && c.ok then [c.frame] else []
  }

  function PostedIn(calls: seq<Call>): seq<(string, string)> {
    if calls == [] then []
    else
      var c := calls[|calls| - 1];
      PostedIn(calls[..|calls| - 1]) + if c.Post? then [(c.id, c.hash)] else []
  }

  /** A character buffer read as a C string. */
  function CText(s: string): string {
    if s == [] || s[0] == '\0' then [] else [s[0]] + CText(s[1..])
  }

  lemma {:induction false} CTextPlain(s: string)
    requires '\0' !in s
    ensures CText(s) == s
    decreases |s|
  {
    if s != [] {
      CTextPlain(s[1..]);
      assert s == [s[0]] + s[1..];
    }
  }

  /** A buffer that holds v reads as v up to its first NUL. */
  lemma {:induction false} CTextHeld(v: string, rest: string)
    ensures CText(v + ['\0'] + rest) == CText(v)
    decreases |v|
  {
    var s := v + ['\0'] + rest;
    if v != [] && v[0] != '\0' {
      CTextHeld(v[1..], rest);
      assert s[1..] == v[1..] + ['\0'] + rest;
    }
  }

  /** The frame a record stands for; anything but 224 hex digits is skipped. */
  function FrameIn(f: Fields): Option<Bytes> {
    var hex := CText(f.packetCHex);
    if |hex| == 2 * FRAME_SIZE then HexVal(hex) else None
  }

  /** The first n records of the page. An acknowledgement that gets an answer counts, whatever its status. */
  function Drained(fs: seq<Fields>, o: Outcomes, n: nat): Trace
    requires n <= |fs|
  {
    if n == 0 then Trace(0, [])
    else
      var t, f := Drained(fs, o, n - 1), fs[n - 1];
      if FrameIn(f).None? then t
      else
        var sent := t.calls + [Send(FrameIn(f).value, o.tx(n - 1))];
        if !o.tx(n - 1) then Trace(t.count, sent)
        else
          Trace(t.count + (if o.ack(n - 1).Some? then 1 else 0),
                sent + [Post(CText(f.paymentId), CText(f.txHash), o.ack(n - 1))])
  }

  function TickResult(fetched: Fetched, o: Outcomes): Trace {
    match fetched
    case FetchFailed => Trace(-1, [])
    case Response(status, body) =>
      if status != 200 then Trace(0, [])
      else
        match Parse(body, MAX_PER_TICK)
        case None => Trace(-1, [])
        case Some(fs) => Drained(fs, o, |fs|)
  }

  /** Reads a NUL-terminated bucket. */
  method ReadCString(a: array<char>, ghost v: string) returns (s: string)
    requires Holds(a, v)
    ensures s == CText(v) && |s| < a.Length
  {
    var n := 0;
    ghost var all := a[..];
    while a[n] != '\0' && n < a.Length
      invariant n <= |v| && CText(v) == v[..n] + CText(v[n..])
      decreases |v| - n
    {
      assert v[n] == all[n];
      assert v[n..][1..] == v[n + 1..];
      assert v[..n + 1] == v[..n] + [v[n]];
      n := n + 1;
    }
    assert n < |v| ==> v[n] == all[n];
    assert CText(v[n..]) == [];
    s := a[..n];
    assert s == v[..n];
  }

  method FreshBuckets() returns (recs: seq<RecordBuckets>)
    ensures |recs| == MAX_PER_TICK && Buckets(recs) && fresh(AllArrays(recs))
  {
    recs := [];
    for i := 0 to MAX_PER_TICK
      invariant |recs| == i && Buckets(recs)
      invariant forall j :: 0 <= j < i ==> fresh(recs[j].Arrays())
    {
      var r := new RecordBuckets();
      recs := recs + [r];
    }
  }

  /** The decode step of the loop, into a frame buffer of its own. */
  method DecodeFrame(r: RecordBuckets, ghost f: Fields) returns (ok: bool, frame: Bytes)
    requires r.Contain(f)
    ensures FrameIn(f) == if ok then Some(frame) else None
  {
    hide CText, HexVal, Holds;
    frame := [];
    var hex := ReadCString(r.packetCHex, f.packetCHex);
    if |hex| != 2 * FRAME_SIZE {
      return false, frame;
    }
    var buffer := new U8[FRAME_SIZE];
    ok := HexDecode(hex, buffer);
    if ok {
      frame := buffer[..];
      assert buffer[..FRAME_SIZE] == buffer[..];
    }
  }

  /** The identifiers the acknowledgement carries. */
  method AckFields(r: RecordBuckets, ghost f: Fields) returns (ack: (string, string))
    requires r.Contain(f)
    ensures ack == (CText(f.paymentId), CText(f.txHash))
  {
    var id := ReadCString(r.paymentId, f.paymentId);
    var hash := ReadCString(r.txHash, f.txHash);
    ack := (id, hash);
  }

  /** The loop over the scanned records. */
  method DrainRecords(recs: seq<RecordBuckets>, parsed: nat, ghost fs: seq<Fields>, o: Outcomes) returns (t: Trace)
    requires parsed == |fs| <= |recs| && forall k :: 0 <= k < parsed ==> recs[k].Contain(fs[k])
    ensures t == Drained(fs, o, parsed)
  {
    hide CText, FrameIn;
    t := Trace(0, []);
    for i := 0 to parsed
      invariant t == Drained(fs, o, i)
      invariant forall k :: 0 <= k < parsed ==> recs[k].Contain(fs[k])
    {
      var decoded, frame := DecodeFrame(recs[i], fs[i]);
      if !decoded {
        continue;
      }
      var ok := o.tx(i);
      t := Trace(t.count, t.calls + [Send(frame, ok)]);
      if !ok {
        continue;
      }
      var ack := AckFields(recs[i], fs[i]);
      var answer := o.ack(i);
      t := Trace(t.count, t.calls + [Post(ack.0, ack.1, answer)]);
      if answer.None? {
        continue;
      }
      t := t.(count := t.count + 1);
    }
  }

  method Tick(fetched: Fetched, o: Outcomes) returns (t: Trace)
    ensures t == TickResult(fetched, o)
  {
    if fetched.FetchFailed? {
      return Trace(-1, []);
    }
    if fetched.status != 200 {
      return Trace(0, []);
    }
    hide Parse, Buckets, AllArrays;
    var recs := FreshBuckets();
    var parsed := ParsePendingResponse(fetched.body, recs);
    if parsed < 0 {
      return Trace(-1, []);
    }
    t := DrainRecords(recs, parsed, Parse(fetched.body, MAX_PER_TICK).value, o);
  }

  /** A field decodes exactly if, up to its first NUL, it is the hex text of 112 bytes in either case. */
  lemma FrameInExactly(f: Fields, b: Bytes)
    ensures FrameIn(f) == Some(b) <==> |b| == 112 && |CText(f.packetCHex)| == 224 && Lower(CText(f.packetCHex)) == HexOf(b)
  {
    hide HexVal, Lower, HexOf, CText;
    var hex := CText(f.packetCHex);
    if |hex| == 224 {
      DecodesExactly(hex, b);
      if HexVal(hex).Some? {
        HexValLength(hex);
      }
    }
  }

  // ---- What any tick does --------------------------------------------------------------------------------------

  /** The acknowledgements that got an answer. */
  function AnsweredIn(calls: seq<Call>): nat {
    if calls == [] then 0
    else
      var c := calls[|calls| - 1];
      AnsweredIn(calls[..|calls| - 1]) + if c.Post? && c.answer.Some? then 1 else 0
  }

  /** The frames that were handed to the transmitter, whether they went out or not. */
  function TriedIn(calls: seq<Call>): seq<Bytes> {
    if calls == [] then []
    else
      var c := calls[|calls| - 1];
      TriedIn(calls[..|calls| - 1]) + if c.Send? then [c.frame] else []
  }

  /** A post stands right behind a transmission that succeeded, and every such transmission has its post. */
  predicate Paired(calls: seq<Call>) {
    && (forall i :: 0 <= i < |calls| && calls[i].Post? ==> i > 0 && calls[i - 1].Send? && calls[i - 1].ok)
    && (forall i :: 0 <= i < |calls| && calls[i].Send? && calls[i].ok ==> i + 1 < |calls| && calls[i + 1].Post?)
  }

  /** The frames of the records that decode, in order. */
  function FramesIn(fs: seq<Fields>): seq<Bytes> {
    if fs == [] then []
    else
      var f := FrameIn(fs[|fs| - 1]);
      FramesIn(fs[..|fs| - 1]) + if f.Some? then [f.value] else []
  }

  lemma CallsSnoc(calls: seq<Call>, c: Call)
    ensures AnsweredIn(calls + [c]) == AnsweredIn(calls) + (if c.Post? && c.answer.Some? then 1 else 0)
    ensures TriedIn(calls + [c]) == TriedIn(calls) + (if c.Send? then [c.frame] else [])
  {
    assert (calls + [c])[..|calls|] == calls;
  }

  lemma PairedSnoc(calls: seq<Call>, frame: Bytes, post: Call)
    requires Paired(calls) && post.Post?
    ensures Paired(calls + [Send(frame, false)]) && Paired(calls + [Send(frame, true)] + [post])
  {
    var one, two := calls + [Send(frame, false)], calls + [Send(frame, true)] + [post];
    assert forall i :: 0 <= i < |calls| ==> one[i] == calls[i] && two[i] == calls[i];
  }

  lemma {:induction false} DrainedMeaning(fs: seq<Fields>, o: Outcomes, n: nat)
    requires n <= |fs|
    ensures var t := Drained(fs, o, n);
            t.count == AnsweredIn(t.calls) && TriedIn(t.calls) == FramesIn(fs[..n]) && Paired(t.calls)
    decreases n
  {
    hide FrameIn, CText, Paired, AnsweredIn, TriedIn;
    if n == 0 {
      NoCalls();
    } else {
      DrainedMeaning(fs, o, n - 1);
      assert fs[..n][..n - 1] == fs[..n - 1];
      var t, f := Drained(fs, o, n - 1), fs[n - 1];
      if FrameIn(f).Some? {
        var send := Send(FrameIn(f).value, o.tx(n - 1));
        var post := Post(CText(f.paymentId), CText(f.txHash), o.ack(n - 1));
        CallsSnoc(t.calls, send);
        CallsSnoc(t.calls + [send], post);
        PairedSnoc(t.calls, FrameIn(f).value, post);
      }
    }
  }

  lemma NoCalls()
    ensures AnsweredIn([]) == 0 && TriedIn([]) == [] && Paired([]) && FramesIn([]) == []
  {
  }

  /** Every tick, on any response and with any outcomes: -1 means that the request or the scan failed, and then, as for
      a status other than 200, nothing was done; otherwise exactly the frames that decode are tried, in order, each one
      that goes out is acknowledged at once, and the number returned is that of the answers. */
  lemma TickAnswers(fetched: Fetched, o: Outcomes)
    ensures var t := TickResult(fetched, o);
            && (t.count < 0 <==> fetched.FetchFailed? || (fetched.status == 200 && Parse(fetched.body, 10).None?))
            && (t.count < 0 ==> t == Trace(-1, []))
            && (fetched.Response? && fetched.status != 200 ==> t == Trace(0, []))
            && (t.count >= 0 ==> t.count == AnsweredIn(t.calls) && Paired(t.calls))
            && (fetched.Response? && fetched.status == 200 && Parse(fetched.body, 10).Some? ==>
                  TriedIn(t.calls) == FramesIn(Parse(fetched.body, 10).value))
  {
    hide Parse, Drained, AnsweredIn, TriedIn, Paired, FramesIn;
    NoCalls();
    if fetched.Response? && fetched.status == 200 && Parse(fetched.body, 10).Some? {
      var fs := Parse(fetched.body, 10).value;
      DrainedMeaning(fs, o, |fs|);
      assert fs[..|fs|] == fs;
    }
  }
}
