/** The bouncer's bounded JSON scanner (ground-station/src/egress_json.cpp). The specification functions work
    on the text still to be read (body[pos..end]); the methods move a cursor over the body and write into
    fixed-size buffers, and are proved to compute those functions on every input. */
module EgressJson {
  import opened Words

  const PAYMENT_ID_MAX: nat := 96
  const TX_HASH_MAX: nat := 80
  const PACKET_C_MAX: nat := 240

  const PAYMENT_ID := "payment_id"
  const TX_HASH := "settlement_tx_hash"
  const PACKET_C := "packet_c_hex"

  /** The three fields of one parsed record. */
  datatype Fields = Fields(paymentId: string, txHash: string, packetCHex: string)

  predicate IsWs(c: char) {
    c == ' ' || c == '\t' || c == '\n' || c == '\r'
  }

  // ---- What is scanned -----------------------------------------------------------------------------

  function SkipWs(s: string): (r: string)
    ensures |r| <= |s|
  {
    if s != [] && IsWs(s[0]) then SkipWs(s[1..]) else s
  }

  function Prepend(p: string, r: Option<(string, string)>): Option<(string, string)> {
    if r.Some? then Some((p + r.value.0, r.value.1)) else None
  }

  /** From just after an opening quote: the string's value and the text after its closing quote. */
  function ScanString(s: string): Option<(string, string)> {
    if s == [] then None
    else if s[0] == '"' then Some(("", s[1..]))
    else if s[0] == '\\' && |s| > 1 then Prepend([s[1]], ScanString(s[2..]))
    else Prepend([s[0]], ScanString(s[1..]))
  }

  function ToQuote(s: string): (r: string)
    ensures |r| <= |s|
    ensures r != [] ==> r[0] == '"'
  {
    if s == [] || s[0] == '"' then s else ToQuote(s[1..])
  }

  /** From just after an opening quote: the text after the closing quote, or nothing. */
  function SkipString(s: string): (r: string)
    ensures |r| <= |s|
  {
    if s == [] then []
    else if s[0] == '\\' && |s| > 1 then SkipString(s[2..])
    else if s[0] == '"' then s[1..]
    else SkipString(s[1..])
  }

  /** After a matched key: a colon and a string value, with whitespace around the colon. */
  function AfterKey(s: string): Option<string> {
    var u := SkipWs(s);
    if u == [] || u[0] != ':' then None
    else
      var w := SkipWs(u[1..]);
      if w == [] || w[0] != '"' || ScanString(w[1..]).None? then None
      else Some(ScanString(w[1..]).value.0)
  }

  /** The value after the first string token that equals key, whether that token is a key or a value. */
  function FindKey(s: string, key: string): Option<string>
    decreases |s|
  {
    var t := ToQuote(s);
    if t == [] || |key| + 2 > |t| then None
    else if t[|key| + 1] == '"' && t[1..|key| + 1] == key then AfterKey(t[|key| + 2..])
    else FindKey(SkipString(t[1..]), key)
  }

  /** How many characters up to and including the brace that closes the object. */
  function ObjectEnd(s: string, depth: int, inString: bool): (r: Option<nat>)
    ensures r.Some? ==> 0 < r.value <= |s|
    decreases |s|
  {
    if s == [] then None
    else if inString && s[0] == '\\' && |s| > 1 then Plus(2, ObjectEnd(s[2..], depth, true))
    else if inString then Plus(1, ObjectEnd(s[1..], depth, s[0] != '"'))
    else if s[0] == '"' then Plus(1, ObjectEnd(s[1..], depth, true))
    else if s[0] == '{' then Plus(1, ObjectEnd(s[1..], depth + 1, false))
    else if s[0] == '}' && depth - 1 == 0 then Some(1)
    else Plus(1, ObjectEnd(s[1..], if s[0] == '}' then depth - 1 else depth, false))
  }

  function Plus(n: nat, r: Option<nat>): Option<nat> {
    if r.Some? then Some(n + r.value) else None
  }

  function Bounded(v: Option<string>, max: nat): Option<string> {
    if v.Some? && |v.value| < max then v else None
  }

  function ParseObject(s: string): Option<Fields> {
    var p := Bounded(FindKey(s, PAYMENT_ID), PAYMENT_ID_MAX);
    var t := Bounded(FindKey(s, TX_HASH), TX_HASH_MAX);
    var c := Bounded(FindKey(s, PACKET_C), PACKET_C_MAX);
    if p.Some? && t.Some? && c.Some? then Some(Fields(p.value, t.value, c.value)) else None
  }

  function Cons(f: Fields, r: Option<seq<Fields>>): Option<seq<Fields>> {
    if r.Some? then Some([f] + r.value) else None
  }

  /** One object and, below the cap, what follows it. */
  function ParseItems(s: string, max: nat): Option<seq<Fields>>
    requires max > 0
    decreases max
  {
    var t := SkipWs(s);
    if t == [] || t[0] != '{' then None
    else
      var n := ObjectEnd(t, 0, false);
      if n.None? || n.value == |t| || ParseObject(t[..n.value]).None? then None
      else
        var f := ParseObject(t[..n.value]).value;
        if max == 1 then Some([f])
        else
          var u := SkipWs(t[n.value..]);
          if u == [] then None
          else if u[0] == ',' then Cons(f, ParseItems(u[1..], max - 1))
          else if u[0] == ']' then Some([f])
          else None
  }

  function Parse(s: string, max: nat): Option<seq<Fields>> {
    if s == [] || max == 0 then None
    else
      var t := SkipWs(s);
      if t == [] || t[0] != '[' then None
      else
        var u := SkipWs(t[1..]);
        if u != [] && u[0] == ']' then Some([]) else ParseItems(u, max)
  }

  // ---- The scanner -----------------------------------------------------------------------------------

  /** The buffer holds v as a NUL-terminated string. */
  predicate Holds(out: array<char>, v: string)
    reads out
  {
    |v| < out.Length && out[..|v|] == v && out[|v|] == '\0'
  }

  /** The text a cursor still has to read. */
  function Rest(body: string, pos: nat, end: nat): (r: string)
    requires pos <= end <= |body|
    ensures |r| == end - pos
  {
    body[pos..end]
  }

  lemma RestStep(body: string, pos: nat, end: nat)
    requires pos < end <= |body|
    ensures Rest(body, pos, end)[0] == body[pos]
    ensures Rest(body, pos, end)[1..] == Rest(body, pos + 1, end)
  {
  }

  lemma RestSlice(body: string, pos: nat, end: nat, c: nat, d: nat)
    requires pos <= end <= |body| && c <= d <= end - pos
    ensures Rest(body, pos, end)[c..d] == body[pos + c..pos + d]
    ensures Rest(body, pos, end)[c..] == Rest(body, pos + c, end)
    ensures c < end - pos ==> Rest(body, pos, end)[c] == body[pos + c]
  {
    assert forall i :: 0 <= i < d - c ==> Rest(body, pos, end)[c..d][i] == body[pos + c + i];
  }

  method SkipWsAt(body: string, pos: nat, end: nat) returns (p: nat)
    requires pos <= end <= |body|
    ensures pos <= p <= end
    ensures Rest(body, p, end) == SkipWs(Rest(body, pos, end))
  {
    p := pos;
    while p < end
      invariant pos <= p <= end
      invariant SkipWs(Rest(body, pos, end)) == SkipWs(Rest(body, p, end))
    {
      RestStep(body, p, end);
      if !IsWs(body[p]) {
        break;
      }
      p := p + 1;
    }
  }

  lemma PrependNothing(r: Option<(string, string)>)
    ensures Prepend("", r) == r
  {
    if r.Some? {
      assert "" + r.value.0 == r.value.0;
    }
  }

  lemma PrependTwice(p: string, q: string, r: Option<(string, string)>)
    ensures Prepend(p, Prepend(q, r)) == Prepend(p + q, r)
  {
    if r.Some? {
      assert p + (q + r.value.0) == (p + q) + r.value.0;
    }
  }

  method ExtractString(body: string, start: nat, end: nat, out: array<char>, outMax: nat)
    returns (ok: bool, pos: nat)
    requires start <= end <= |body| && outMax <= out.Length
    modifies out
    ensures start <= pos <= end
    ensures ok <==> outMax > 0 && start < end && body[start] == '"'
                    && ScanString(Rest(body, start + 1, end)).Some?
                    && |ScanString(Rest(body, start + 1, end)).value.0| < outMax
    ensures ok ==> Holds(out, ScanString(Rest(body, start + 1, end)).value.0)
                   && Rest(body, pos, end) == ScanString(Rest(body, start + 1, end)).value.1
  {
    hide Rest;
    pos := start;
    if outMax == 0 {
      return false, pos;
    }
    if pos >= end || body[pos] != '"' {
      return false, pos;
    }
    pos := pos + 1;
    ghost var text := Rest(body, pos, end);
    var written := 0;
    PrependNothing(ScanString(text));
    assert out[..written] == "";
    while pos < end
      invariant start < pos <= end
      invariant written < outMax
      invariant ScanString(text) == Prepend(out[..written], ScanString(Rest(body, pos, end)))
    {
      RestStep(body, pos, end);
      ghost var rest := Rest(body, pos, end);
      var c := body[pos];
      if c == '"' {
        if written >= outMax {
          return false, pos;
        }
        out[written] := '\0';
        return true, pos + 1;
      }
      if c == '\\' && pos + 1 < end {
        pos := pos + 1;
        RestStep(body, pos, end);
        c := body[pos];
        assert rest[2..] == rest[1..][1..];
      }
      assert ScanString(rest) == Prepend([c], ScanString(Rest(body, pos + 1, end)));
      ghost var before := out[..written];
      PrependTwice(before, [c], ScanString(Rest(body, pos + 1, end)));
      if written + 1 >= outMax {
        return false, pos;
      }
      out[written] := c;
      written := written + 1;
      pos := pos + 1;
      assert out[..written] == before + [c];
    }
    return false, pos;
  }

  /** Moves to the next quote, or to the end. */
  method SeekQuote(body: string, start: nat, end: nat) returns (pos: nat)
    requires start <= end <= |body|
    ensures start <= pos <= end && (pos < end ==> body[pos] == '"')
    ensures Rest(body, pos, end) == ToQuote(Rest(body, start, end))
  {
    pos := start;
    while pos < end && body[pos] != '"'
      invariant start <= pos <= end
      invariant ToQuote(Rest(body, start, end)) == ToQuote(Rest(body, pos, end))
    {
      RestStep(body, pos, end);
      pos := pos + 1;
    }
  }

  /** Moves past the closing quote of the string being read, or to the end. */
  method SkipStringAt(body: string, start: nat, end: nat) returns (pos: nat)
    requires start <= end <= |body|
    ensures start <= pos <= end
    ensures Rest(body, pos, end) == SkipString(Rest(body, start, end))
  {
    hide Rest;
    pos := start;
    while pos < end
      invariant start <= pos <= end
      invariant SkipString(Rest(body, start, end)) == SkipString(Rest(body, pos, end))
    {
      RestStep(body, pos, end);
      var c := body[pos];
      if c == '\\' && pos + 1 < end {
        RestStep(body, pos + 1, end);
        assert Rest(body, pos, end)[2..] == Rest(body, pos, end)[1..][1..];
        pos := pos + 2;
        continue;
      }
      pos := pos + 1;
      if c == '"' {
        return;
      }
    }
  }

  /** The part of find_and_extract_key after the key matched. */
  method ExtractAfterKey(body: string, start: nat, end: nat, out: array<char>, outMax: nat) returns (ok: bool)
    requires start <= end <= |body| && outMax <= out.Length
    modifies out
    ensures ok <==> Bounded(AfterKey(Rest(body, start, end)), outMax).Some?
    ensures ok ==> Holds(out, AfterKey(Rest(body, start, end)).value)
  {
    hide Rest, SkipWs, ScanString;
    var pos := SkipWsAt(body, start, end);
    if pos >= end {
      return false;
    }
    RestStep(body, pos, end);
    if body[pos] != ':' {
      return false;
    }
    pos := pos + 1;
    pos := SkipWsAt(body, pos, end);
    if pos < end {
      RestStep(body, pos, end);
    }
    ok, pos := ExtractString(body, pos, end, out, outMax);
  }

  method FindAndExtractKey(body: string, start: nat, end: nat, key: string, out: array<char>, outMax: nat)
    returns (ok: bool)
    requires start <= end <= |body| && outMax <= out.Length
    modifies out
    ensures ok <==> Bounded(FindKey(Rest(body, start, end), key), outMax).Some?
    ensures ok ==> Holds(out, FindKey(Rest(body, start, end), key).value)
  {
    hide Rest, AfterKey, ToQuote, SkipString;
    var pos := start;
    while pos < end
      invariant start <= pos <= end
      invariant FindKey(Rest(body, start, end), key) == FindKey(Rest(body, pos, end), key)
    {
      ghost var here := Rest(body, pos, end);
      pos := SeekQuote(body, pos, end);
      if pos >= end {
        return false;
      }
      if pos + 1 + |key| + 1 > end {
        return false;
      }
      RestStep(body, pos, end);
      RestSlice(body, pos, end, 1, |key| + 1);
      RestSlice(body, pos, end, |key| + 1, |key| + 2);
      RestSlice(body, pos, end, |key| + 2, |key| + 2);
      if body[pos + 1 + |key|] == '"' && body[pos + 1..pos + 1 + |key|] == key {
        assert FindKey(here, key) == AfterKey(Rest(body, pos + |key| + 2, end));
        ok := ExtractAfterKey(body, pos + 1 + |key| + 1, end, out, outMax);
        return;
      }
      pos := SkipStringAt(body, pos + 1, end);
    }
    assert Rest(body, pos, end) == [];
    ToQuoteOfNothing();
    return false;
  }

  lemma ToQuoteOfNothing()
    ensures ToQuote([]) == []
  {
  }

  lemma ObjectEndOfNothing()
    ensures forall d, q :: ObjectEnd([], d, q) == None
  {
  }

  lemma ObjectEndStep(s: string, depth: int, inString: bool)
    requires s != []
    ensures ObjectEnd(s, depth, inString) ==
            if inString && s[0] == '\\' && |s| > 1 then Plus(2, ObjectEnd(s[1..][1..], depth, true))
            else if inString then Plus(1, ObjectEnd(s[1..], depth, s[0] != '"'))
            else if s[0] == '"' then Plus(1, ObjectEnd(s[1..], depth, true))
            else if s[0] == '{' then Plus(1, ObjectEnd(s[1..], depth + 1, false))
            else if s[0] == '}' && depth - 1 == 0 then Some(1)
            else Plus(1, ObjectEnd(s[1..], if s[0] == '}' then depth - 1 else depth, false))
  {
    assert |s| > 1 ==> s[1..][1..] == s[2..];
  }

  method FindObjectEnd(body: string, start: nat, end: nat) returns (pos: nat)
    requires start <= end <= |body|
    ensures start <= pos <= end
    ensures start < end && body[start] == '{' && ObjectEnd(Rest(body, start, end), 0, false).Some? ==>
              pos == start + ObjectEnd(Rest(body, start, end), 0, false).value
    ensures !(start < end && body[start] == '{' && ObjectEnd(Rest(body, start, end), 0, false).Some?) ==> pos == end
  {
    hide Rest, ObjectEnd;
    ObjectEndOfNothing();
    if start >= end || body[start] != '{' {
      return end;
    }
    pos := start;
    var depth := 0;
    var inString := false;
    ghost var all := ObjectEnd(Rest(body, start, end), 0, false);
    while pos < end
      invariant start <= pos <= end
      invariant all == Plus(pos - start, ObjectEnd(Rest(body, pos, end), depth, inString))
    {
      RestStep(body, pos, end);
      ObjectEndStep(Rest(body, pos, end), depth, inString);
      var c := body[pos];
      if inString {
        if c == '\\' && pos + 1 < end {
          RestStep(body, pos + 1, end);
          pos := pos + 2;
          continue;
        }
        if c == '"' {
          inString := false;
        }
        pos := pos + 1;
        continue;
      }
      if c == '"' {
        inString := true;
        pos := pos + 1;
        continue;
      } else if c == '{' {
        depth := depth + 1;
      } else if c == '}' {
        depth := depth - 1;
        if depth == 0 {
          return pos + 1;
        }
      }
      pos := pos + 1;
    }
    return end;
  }

  /** The caller's record buckets: three character arrays of fixed capacity. */
  class RecordBuckets {
    const paymentId: array<char>
    const txHash: array<char>
    const packetCHex: array<char>

    predicate Sized() {
      paymentId.Length == PAYMENT_ID_MAX && txHash.Length == TX_HASH_MAX && packetCHex.Length == PACKET_C_MAX
    }

    constructor ()
      ensures Sized() && fresh(paymentId) && fresh(txHash) && fresh(packetCHex)
    {
      paymentId := new char[PAYMENT_ID_MAX](_ => '\0');
      txHash := new char[TX_HASH_MAX](_ => '\0');
      packetCHex := new char[PACKET_C_MAX](_ => '\0');
    }

    ghost function Arrays(): set<object> {
      {paymentId, txHash, packetCHex}
    }

    predicate Contain(f: Fields)
      reads Arrays()
    {
      Holds(paymentId, f.paymentId) && Holds(txHash, f.txHash) && Holds(packetCHex, f.packetCHex)
    }
  }

  /** Every bucket has its capacity and no two records share one. */
  ghost predicate Buckets(out: seq<RecordBuckets>) {
    && (forall i :: 0 <= i < |out| ==> out[i].Sized())
    && (forall i, j :: 0 <= i < j < |out| ==> out[i].Arrays() !! out[j].Arrays())
  }

  ghost function AllArrays(out: seq<RecordBuckets>): set<object> {
    set i, o | 0 <= i < |out| && o in out[i].Arrays() :: o
  }

  method ParseOne(body: string, start: nat, end: nat, r: RecordBuckets) returns (ok: bool)
    requires start <= end <= |body| && r.Sized()
    modifies r.Arrays()
    ensures ok <==> ParseObject(Rest(body, start, end)).Some?
    ensures ok ==> r.Contain(ParseObject(Rest(body, start, end)).value)
  {
    hide FindKey, Rest;
    r.paymentId[0] := '\0';
    r.txHash[0] := '\0';
    r.packetCHex[0] := '\0';
    ok := FindAndExtractKey(body, start, end, PAYMENT_ID, r.paymentId, PAYMENT_ID_MAX);
    if !ok {
      return;
    }
    ok := FindAndExtractKey(body, start, end, TX_HASH, r.txHash, TX_HASH_MAX);
    if !ok {
      return;
    }
    ok := FindAndExtractKey(body, start, end, PACKET_C, r.packetCHex, PACKET_C_MAX);
  }

  function Appended(done: seq<Fields>, rest: Option<seq<Fields>>): Option<seq<Fields>> {
    if rest.Some? then Some(done + rest.value) else None
  }

  lemma AppendedNothing(r: Option<seq<Fields>>)
    ensures Appended([], r) == r
  {
    if r.Some? {
      assert [] + r.value == r.value;
    }
  }

  lemma AppendedCons(done: seq<Fields>, f: Fields, rest: Option<seq<Fields>>)
    ensures Appended(done, Cons(f, rest)) == Appended(done + [f], rest)
  {
    if rest.Some? {
      assert done + ([f] + rest.value) == (done + [f]) + rest.value;
    }
  }

  /** What ParseItems does with the text after an object whose fields were read. */
  function AfterItem(s: string, f: Fields, max: nat): Option<seq<Fields>>
    requires max > 0
  {
    var u := SkipWs(s);
    if max == 1 then Some([f])
    else if u == [] then None
    else if u[0] == ',' then Cons(f, ParseItems(u[1..], max - 1))
    else if u[0] == ']' then Some([f])
    else None
  }

  lemma ParseItemsIs(s: string, max: nat, n: nat)
    requires max > 0
    requires var t := SkipWs(s); t != [] && t[0] == '{' && ObjectEnd(t, 0, false) == Some(n) && n < |t|
    ensures var t := SkipWs(s);
            ParseItems(s, max) ==
            if ParseObject(t[..n]).None? then None else AfterItem(t[n..], ParseObject(t[..n]).value, max)
  {
    hide SkipWs, ObjectEnd, ParseObject;
  }

  /** parse_pending_response: the number of records written, or -1. */
  method ParsePendingResponse(body: string, out: seq<RecordBuckets>) returns (n: int)
    requires Buckets(out)
    modifies AllArrays(out)
    ensures n == if Parse(body, |out|).Some? then |Parse(body, |out|).value| else -1
    ensures n >= 0 ==> n <= |out|
    ensures forall i :: 0 <= i < n ==> out[i].Contain(Parse(body, |out|).value[i])
  {
    hide Rest, ObjectEnd, ParseObject, SkipWs, ParseItems, RecordBuckets.Contain;
    if |body| == 0 || |out| == 0 {
      return -1;
    }
    var len := |body|;
    RestAll(body);
    var pos := SkipWsAt(body, 0, len);
    if pos >= len {
      return -1;
    }
    RestStep(body, pos, len);
    if body[pos] != '[' {
      return -1;
    }
    pos := SkipWsAt(body, pos + 1, len);
    if pos < len {
      RestStep(body, pos, len);
      if body[pos] == ']' {
        return 0;
      }
    }
    n := ParseObjects(body, pos, out);
  }

  lemma RestAll(body: string)
    ensures Rest(body, 0, |body|) == body
  {
  }

  lemma ParseItemsNoObject(s: string, max: nat)
    requires max > 0
    requires var t := SkipWs(s); t == [] || t[0] != '{' || ObjectEnd(t, 0, false).None?
                                 || ObjectEnd(t, 0, false) == Some(|t|)
    ensures ParseItems(s, max) == None
  {
  }

  /** One round of the object loop, up to the end of the object. */
  method ParseItem(body: string, start: nat, r: RecordBuckets) returns (ok: bool, pos: nat, ghost f: Fields)
    requires start <= |body| && r.Sized()
    modifies r.Arrays()
    ensures pos <= |body| && (ok ==> start < pos < |body|)
    ensures !ok ==> forall max: nat :: max > 0 ==> ParseItems(Rest(body, start, |body|), max) == None
    ensures ok ==> r.Contain(f)
    ensures ok ==> forall max: nat :: max > 0 ==>
              ParseItems(Rest(body, start, |body|), max) == AfterItem(Rest(body, pos, |body|), f, max)
  {
    hide Rest, ObjectEnd, ParseObject, SkipWs, ParseItems, RecordBuckets.Contain, AfterItem;
    var len := |body|;
    ghost var here := Rest(body, start, len);
    f := Fields("", "", "");
    pos := SkipWsAt(body, start, len);
    if pos < len {
      RestStep(body, pos, len);
    }
    var objStart := pos;
    if pos >= len || body[pos] != '{' {
      forall max: nat | max > 0 { ParseItemsNoObject(here, max); }
      return false, pos, f;
    }
    pos := FindObjectEnd(body, objStart, len);
    if pos == len {
      forall max: nat | max > 0 { ParseItemsNoObject(here, max); }
      return false, pos, f;
    }
    forall max: nat | max > 0 { ParseItemsIs(here, max, pos - objStart); }
    RestSlice(body, objStart, len, 0, pos - objStart);
    RestSlice(body, objStart, len, pos - objStart, pos - objStart);
    RestIs(body, objStart, pos);
    ok := ParseOne(body, objStart, pos, r);
    if ok {
      f := ParseObject(Rest(body, objStart, pos)).value;
    }
  }

  /** What the character behind an object decides. */
  lemma AfterObject(done: seq<Fields>, s: string, f: Fields, left: nat)
    requires left > 0
    ensures var u, all := SkipWs(s), Appended(done, AfterItem(s, f, left));
            if left == 1 then all == Some(done + [f])
            else if u == [] then all == None
            else if u[0] == ',' then all == Appended(done + [f], ParseItems(u[1..], left - 1))
            else if u[0] == ']' then all == Some(done + [f])
            else all == None
  {
    hide SkipWs, ParseItems;
    var u := SkipWs(s);
    if left > 1 && u != [] && u[0] == ',' {
      AppendedCons(done, f, ParseItems(u[1..], left - 1));
    }
  }

  /** The object loop of parse_pending_response. */
  method ParseObjects(body: string, start: nat, out: seq<RecordBuckets>) returns (n: int)
    requires start <= |body| && |out| > 0 && Buckets(out)
    modifies AllArrays(out)
    ensures var r := ParseItems(Rest(body, start, |body|), |out|);
            && n == (if r.Some? then |r.value| else -1)
            && n <= |out|
            && forall i :: 0 <= i < n ==> out[i].Contain(r.value[i])
  {
    hide Rest, SkipWs, ParseItems, RecordBuckets.Sized, Holds, AfterItem, Appended, Cons;
    var len := |body|;
    ghost var done: seq<Fields> := [];
    ghost var all := ParseItems(Rest(body, start, len), |out|);
    AppendedNothing(all);
    var pos := start;
    var count := 0;
    while pos < len
      invariant pos <= len && count == |done| < |out|
      invariant all == Appended(done, ParseItems(Rest(body, pos, len), |out| - count))
      invariant forall i :: 0 <= i < count ==> out[i].Contain(done[i])
    {
      ghost var was, left := done, |out| - count;
      var ok, objEnd;
      ghost var f;
      ok, objEnd, f := ParseItem(body, pos, out[count]);
      if !ok {
        AppendedNone(was);
        return -1;
      }
      assert all == Appended(was, AfterItem(Rest(body, objEnd, len), f, left));
      AfterObject(was, Rest(body, objEnd, len), f, left);
      forall i | 0 <= i < count ensures out[i].Contain(was[i]) {
        assert out[i].Arrays() !! out[count].Arrays();
      }
      done := done + [f];
      assert forall i :: 0 <= i < count ==> done[i] == was[i];
      count := count + 1;
      pos := objEnd;
      if count >= |out| {
        return count;
      }
      pos := SkipWsAt(body, pos, len);
      if pos >= len {
        return -1;
      }
      RestStep(body, pos, len);
      if body[pos] == ',' {
        pos := pos + 1;
        continue;
      }
      if body[pos] == ']' {
        return count;
      }
      return -1;
    }
    SkipWsOfNothing();
    ParseItemsNoObject(Rest(body, pos, len), |out| - count);
    AppendedNone(done);
    return -1;
  }

  lemma AppendedNone(done: seq<Fields>)
    ensures Appended(done, None) == None
  {
  }

  lemma SkipWsOfNothing()
    ensures SkipWs([]) == []
  {
  }

  lemma RestIs(body: string, a: nat, b: nat)
    requires a <= b <= |body|
    ensures Rest(body, a, b) == body[a..b]
  {
  }
}
