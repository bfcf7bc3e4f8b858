/** The scanner undoes the printer. Flat JSON objects with any fields, any key order and any whitespace are
    printed as an array; the scanner returns exactly the printed fields of the first records up to its cap,
    unless a field is missing, is no string, is too long, or is shadowed by an earlier string value that
    equals its key name, which is a quirk of the scanner characterised exactly here. */
module EgressRoundTrip {
  import opened Words
  import opened EgressJson

  datatype Value = Text(s: string) | Bare(s: string)

  /** One member with the whitespace around its four parts. */
  datatype Member = Member(before: string, key: string, afterKey: string, beforeValue: string,
                           value: Value, after: string)

  /** JSON's four blank characters (RFC 8259 section 2). */
  predicate AllWs(s: string) {
    forall i :: 0 <= i < |s| ==> s[i] == ' ' || s[i] == '\t' || s[i] == '\n' || s[i] == '\r'
  }

  /** Characters that need no escape in a JSON string. */
  predicate Plain(s: string) {
    '"' !in s && '\\' !in s
  }

  /** Characters that can stand between string tokens without opening a string or an object. */
  predicate Quiet(s: string) {
    '"' !in s && '{' !in s && '}' !in s
  }

  predicate WfValue(v: Value) {
    match v
    case Text(s) => Plain(s)
    case Bare(s) => Quiet(s)
  }

  predicate WfMember(m: Member) {
    && AllWs(m.before) && AllWs(m.afterKey) && AllWs(m.beforeValue) && AllWs(m.after)
    && Plain(m.key) && WfValue(m.value)
  }

  predicate Wf(ms: seq<Member>) {
    forall i :: 0 <= i < |ms| ==> WfMember(ms[i])
  }

  function Quoted(s: string): string {
    "\"" + s + "\""
  }

  function PrintValue(v: Value): string {
    match v
    case Text(s) => Quoted(s)
    case Bare(s) => s
  }

  function PrintMember(m: Member): string {
    m.before + Quoted(m.key) + m.afterKey + ":" + m.beforeValue + PrintValue(m.value) + m.after
  }

  /** The members from a comma on, and the closing brace. */
  function PrintRest(ms: seq<Member>): string {
    if ms == [] then "}" else "," + PrintMember(ms[0]) + PrintRest(ms[1..])
  }

  function PrintObject(ms: seq<Member>): string {
    "{" + (if ms == [] then "}" else PrintMember(ms[0]) + PrintRest(ms[1..]))
  }

  // ---- What the scanner finds in an object --------------------------------------------------------------

  /** The first token equal to key decides: as a key it gives its string value, as a value it gives nothing. */
  function Lookup(ms: seq<Member>, key: string): Option<string> {
    if ms == [] then None
    else if ms[0].key == key then (if ms[0].value.Text? then Some(ms[0].value.s) else None)
    else if ms[0].value == Text(key) then None
    else Lookup(ms[1..], key)
  }

  /** The meaning of a JSON object: the value of its first member with that key. */
  function Meaning(ms: seq<Member>, key: string): Option<string> {
    if ms == [] then None
    else if ms[0].key == key then (if ms[0].value.Text? then Some(ms[0].value.s) else None)
    else Meaning(ms[1..], key)
  }

  /** Some member before the first one keyed key has the key name as its string value. */
  predicate Shadowed(ms: seq<Member>, key: string) {
    ms != [] && ms[0].key != key && (ms[0].value == Text(key) || Shadowed(ms[1..], key))
  }

  /** The scanner reads the field's meaning exactly when the field has none or is not shadowed. */
  lemma {:induction false} LookupIsMeaning(ms: seq<Member>, key: string)
    ensures Lookup(ms, key) == Meaning(ms, key) <==> Meaning(ms, key).None? || !Shadowed(ms, key)
    ensures Shadowed(ms, key) ==> Lookup(ms, key) == None
    decreases |ms|
  {
    if ms != [] {
      LookupIsMeaning(ms[1..], key);
    }
  }

  lemma {:induction false} SkipWsOver(w: string, s: string)
    requires AllWs(w)
    ensures SkipWs(w + s) == SkipWs(s)
    decreases |w|
  {
    if w == [] {
      assert w + s == s;
    } else {
      assert (w + s)[1..] == w[1..] + s;
      SkipWsOver(w[1..], s);
    }
  }

  lemma {:induction false} ScanPlain(v: string, s: string)
    requires Plain(v)
    ensures ScanString(v + "\"" + s) == Some((v, s))
    ensures SkipString(v + "\"" + s) == s
    decreases |v|
  {
    var t := v + "\"" + s;
    if v == [] {
      assert t[1..] == s;
    } else {
      assert t[1..] == v[1..] + "\"" + s;
      assert t[0] == v[0];
      assert v[0] != '"' && v[0] != '\\';
      ScanPlain(v[1..], s);
      assert [v[0]] + v[1..] == v;
    }
  }

  lemma {:induction false} ToQuoteOver(p: string, s: string)
    requires '"' !in p
    ensures ToQuote(p + s) == ToQuote(s)
    decreases |p|
  {
    if p == [] {
      assert p + s == s;
    } else {
      assert (p + s)[1..] == p[1..] + s;
      ToQuoteOver(p[1..], s);
    }
  }

  lemma FindKeyOver(p: string, s: string, key: string)
    requires '"' !in p
    ensures FindKey(p + s, key) == FindKey(s, key)
  {
    ToQuoteOver(p, s);
  }

  lemma WsIsQuiet(w: string)
    requires AllWs(w)
    ensures Quiet(w)
  {
  }

  /** A hit needs room for the quoted key. */
  lemma FindKeyRoom(s: string, key: string)
    ensures FindKey(s, key).Some? ==> |s| >= |key| + 2
  {
  }

  /** One string token either is the key or is passed over. */
  lemma FindKeyToken(tok: string, s: string, key: string)
    requires Plain(tok) && Plain(key)
    ensures FindKey(Quoted(tok) + s, key) == if tok == key then AfterKey(s) else FindKey(s, key)
  {
    var t := Quoted(tok) + s;
    assert ToQuote(t) == t;
    assert t[1..] == tok + "\"" + s;
    ScanPlain(tok, s);
    if tok == key {
      assert t[1..|key| + 1] == key && t[|key| + 2..] == s;
    } else {
      FindKeyRoom(s, key);
      if |key| + 2 <= |t| && t[|key| + 1] == '"' && t[1..|key| + 1] == key {
        TokenUnique(tok, s, key);
      }
    }
  }

  lemma TokenUnique(tok: string, s: string, key: string)
    requires Plain(tok) && Plain(key)
    requires var t := Quoted(tok) + s;
             |key| + 2 <= |t| && t[|key| + 1] == '"' && t[1..|key| + 1] == key
    ensures tok == key
  {
    var t := Quoted(tok) + s;
    assert t[1..] == tok + "\"" + s;
    assert t[1..] == key + "\"" + t[|key| + 2..];
    ScanPlain(tok, s);
    ScanPlain(key, t[|key| + 2..]);
  }

  // Regrouping of concatenations, kept apart from the functions that build them.

  lemma Regroup3(a: string, b: string, c: string)
    ensures (a + b) + c == a + (b + c)
  {
  }

  lemma Regroup4(a: string, b: string, c: string, d: string)
    ensures a + b + c + d == a + (b + (c + d))
  {
  }

  lemma RegroupValue(a: string, b: string, v: string, w: string, s: string)
    ensures a + ":" + b + v + w + s == a + (":" + (b + (v + (w + s))))
    ensures a + ":" + b + v + w + s == (a + ":" + b) + (v + (w + s))
    ensures a + ":" + b + v + w + s == (a + ":" + b + v + w) + s
  {
  }

  lemma RegroupMember(b: string, k: string, a: string, c: string, v: string, w: string, s: string)
    ensures b + k + a + ":" + c + v + w + s == b + (k + (a + ":" + c + v + w + s))
    ensures b + k + a + ":" + c + v + w + s == b + (k + ((a + ":" + c) + (v + (w + s))))
  {
  }

  /** After a matched key, the printed value comes back if it is a string. */
  lemma AfterKeyValue(m: Member, s: string)
    requires WfMember(m) && (s != [] && s[0] != '"' && !IsWs(s[0]))
    ensures AfterKey(m.afterKey + ":" + m.beforeValue + PrintValue(m.value) + m.after + s)
         == if m.value.Text? then Some(m.value.s) else None
  {
    hide SkipWs, ScanString, PrintValue;
    var v := PrintValue(m.value) + (m.after + s);
    RegroupValue(m.afterKey, m.beforeValue, PrintValue(m.value), m.after, s);
    SkipWsOver(m.afterKey, ":" + (m.beforeValue + v));
    SkipWsStop(":" + (m.beforeValue + v));
    assert (":" + (m.beforeValue + v))[1..] == m.beforeValue + v;
    SkipWsOver(m.beforeValue, v);
    ValueText(m.value, m.after + s);
    if m.value.Text? {
      SkipWsStop(v);
      ScanPlain(m.value.s, m.after + s);
    } else {
      WsIsQuiet(m.after);
      Regroup3(m.value.s, m.after, s);
      NoLeadingQuote(m.value.s + m.after, s);
    }
  }

  lemma SkipWsStop(s: string)
    requires s != [] && !IsWs(s[0])
    ensures SkipWs(s) == s
  {
  }

  lemma ValueText(v: Value, s: string)
    ensures v.Text? ==> (PrintValue(v) + s)[0] == '"' && |PrintValue(v) + s| > 0
                        && (PrintValue(v) + s)[1..] == v.s + "\"" + s
    ensures v.Bare? ==> PrintValue(v) == v.s
  {
  }

  lemma {:induction false} NoLeadingQuote(p: string, s: string)
    requires '"' !in p && s != [] && s[0] != '"' && !IsWs(s[0])
    ensures var r := SkipWs(p + s); r != [] && r[0] != '"'
    decreases |p|
  {
    if p == [] {
      assert p + s == s;
    } else {
      assert (p + s)[1..] == p[1..] + s;
      assert p[0] in p;
      NoLeadingQuote(p[1..], s);
    }
  }

  /** After a string value come whitespace and then a comma or a brace: never a colon. */
  lemma AfterKeyNoColon(w: string, s: string)
    requires AllWs(w) && s != [] && s[0] != ':' && !IsWs(s[0])
    ensures AfterKey(w + s) == None
  {
    SkipWsOver(w, s);
  }

  /** One printed member: its key token, then its value token. */
  lemma FindKeyMember(m: Member, s: string, key: string)
    requires WfMember(m) && Plain(key)
    requires s != [] && (s[0] == ',' || s[0] == '}')
    ensures FindKey(PrintMember(m) + s, key) ==
            if m.key == key then (if m.value.Text? then Some(m.value.s) else None)
            else if m.value == Text(key) then None
            else FindKey(s, key)
  {
    hide FindKey, AfterKey, Quoted, PrintValue;
    var v := PrintValue(m.value);
    var tail := m.afterKey + ":" + m.beforeValue + v + m.after + s;
    RegroupMember(m.before, Quoted(m.key), m.afterKey, m.beforeValue, v, m.after, s);
    WsIsQuiet(m.before);
    FindKeyOver(m.before, Quoted(m.key) + tail, key);
    FindKeyToken(m.key, tail, key);
    if m.key == key {
      AfterKeyValue(m, s);
    } else {
      FindKeyValue(m, s, key);
    }
  }

  /** Past the key token: the value token, if there is one. */
  lemma FindKeyValue(m: Member, s: string, key: string)
    requires WfMember(m) && Plain(key)
    requires s != [] && (s[0] == ',' || s[0] == '}')
    ensures FindKey(m.afterKey + ":" + m.beforeValue + PrintValue(m.value) + m.after + s, key) ==
            if m.value == Text(key) then None else FindKey(s, key)
  {
    hide FindKey, AfterKey, Quoted;
    WsIsQuiet(m.afterKey);
    WsIsQuiet(m.beforeValue);
    WsIsQuiet(m.after);
    RegroupValue(m.afterKey, m.beforeValue, PrintValue(m.value), m.after, s);
    match m.value
    case Text(v) =>
      FindKeyOver(m.afterKey + ":" + m.beforeValue, Quoted(v) + (m.after + s), key);
      FindKeyToken(v, m.after + s, key);
      AfterKeyNoColon(m.after, s);
      FindKeyOver(m.after, s, key);
    case Bare(v) =>
      FindKeyOver(m.afterKey + ":" + m.beforeValue + v + m.after, s, key);
  }

  lemma {:induction false} FindKeyRest(ms: seq<Member>, key: string)
    requires Wf(ms) && Plain(key)
    ensures FindKey(PrintRest(ms), key) == Lookup(ms, key)
    decreases |ms|
  {
    if ms == [] {
      assert ToQuote("}") == ToQuote([]);
    } else {
      hide FindKey, PrintMember;
      FindKeyRest(ms[1..], key);
      var s := PrintMember(ms[0]) + PrintRest(ms[1..]);
      Regroup3(",", PrintMember(ms[0]), PrintRest(ms[1..]));
      FindKeyOver(",", s, key);
      FindKeyMember(ms[0], PrintRest(ms[1..]), key);
    }
  }

  /** An object's text is a brace and PrintRest without its comma. */
  lemma ObjectIsRest(ms: seq<Member>) returns (s: string)
    ensures PrintObject(ms) == "{" + s
    ensures PrintRest(ms) == (if ms == [] then "" else ",") + s
  {
    s := if ms == [] then "}" else PrintMember(ms[0]) + PrintRest(ms[1..]);
    if ms != [] {
      Regroup3(",", PrintMember(ms[0]), PrintRest(ms[1..]));
    }
  }

  /** On every printed flat object the scanner's key search is Lookup. */
  lemma FindKeyObject(ms: seq<Member>, key: string)
    requires Wf(ms) && Plain(key)
    ensures FindKey(PrintObject(ms), key) == Lookup(ms, key)
  {
    hide FindKey, PrintObject, PrintRest;
    FindKeyRest(ms, key);
    var s := ObjectIsRest(ms);
    FindKeyOver("{", s, key);
    FindKeyOver(if ms == [] then "" else ",", s, key);
  }

  // ---- Object boundaries ----------------------------------------------------------------------------------

  lemma {:induction false} EndOverQuiet(p: string, s: string, depth: int)
    requires Quiet(p)
    ensures ObjectEnd(p + s, depth, false) == Plus(|p|, ObjectEnd(s, depth, false))
    decreases |p|
  {
    if p == [] {
      assert p + s == s;
    } else {
      assert (p + s)[1..] == p[1..] + s;
      assert p[0] in p;
      EndOverQuiet(p[1..], s, depth);
    }
  }

  lemma {:induction false} EndOverString(v: string, s: string, depth: int)
    requires Plain(v)
    ensures ObjectEnd(v + "\"" + s, depth, true) == Plus(|v| + 1, ObjectEnd(s, depth, false))
    decreases |v|
  {
    var t := v + "\"" + s;
    if v == [] {
      assert t[1..] == s;
    } else {
      assert t[1..] == v[1..] + "\"" + s;
      assert t[0] == v[0] && v[0] in v;
      EndOverString(v[1..], s, depth);
    }
  }

  lemma EndOverQuoted(v: string, s: string, depth: int)
    requires Plain(v)
    ensures ObjectEnd(Quoted(v) + s, depth, false) == Plus(|Quoted(v)|, ObjectEnd(s, depth, false))
  {
    EndOverString(v, s, depth);
    assert (Quoted(v) + s)[1..] == v + "\"" + s;
  }

  lemma EndOverValue(v: Value, s: string)
    requires WfValue(v)
    ensures ObjectEnd(PrintValue(v) + s, 1, false) == Plus(|PrintValue(v)|, ObjectEnd(s, 1, false))
  {
    match v {
      case Text(t) => EndOverQuoted(t, s, 1);
      case Bare(t) => EndOverQuiet(t, s, 1);
    }
  }

  lemma EndOverMember(m: Member, s: string)
    requires WfMember(m)
    ensures ObjectEnd(PrintMember(m) + s, 1, false) == Plus(|PrintMember(m)|, ObjectEnd(s, 1, false))
  {
    hide ObjectEnd, Quoted, PrintValue;
    WsIsQuiet(m.before);
    WsIsQuiet(m.afterKey);
    WsIsQuiet(m.beforeValue);
    WsIsQuiet(m.after);
    var gap := m.afterKey + ":" + m.beforeValue;
    var v := PrintValue(m.value);
    RegroupMember(m.before, Quoted(m.key), m.afterKey, m.beforeValue, v, m.after, s);
    EndOverQuiet(m.after, s, 1);
    EndOverValue(m.value, m.after + s);
    EndOverQuiet(gap, v + (m.after + s), 1);
    EndOverQuoted(m.key, gap + (v + (m.after + s)), 1);
    EndOverQuiet(m.before, Quoted(m.key) + (gap + (v + (m.after + s))), 1);
  }

  lemma {:induction false} EndOverRest(ms: seq<Member>, s: string)
    requires Wf(ms)
    ensures ObjectEnd(PrintRest(ms) + s, 1, false) == Some(|PrintRest(ms)|)
    decreases |ms|
  {
    if ms == [] {
      assert (PrintRest(ms) + s)[0] == '}';
    } else {
      hide ObjectEnd, PrintMember;
      EndOverRest(ms[1..], s);
      var r := PrintRest(ms[1..]) + s;
      Regroup4(",", PrintMember(ms[0]), PrintRest(ms[1..]), s);
      EndOverQuiet(",", PrintMember(ms[0]) + r, 1);
      EndOverMember(ms[0], r);
    }
  }

  lemma EndAfterBrace(s: string)
    ensures ObjectEnd("{" + s, 0, false) == Plus(1, ObjectEnd(s, 1, false))
  {
    assert ("{" + s)[1..] == s;
  }

  /** The brace search ends exactly where the printed object ends, whatever follows. */
  lemma EndOfObject(ms: seq<Member>, s: string)
    requires Wf(ms)
    ensures ObjectEnd(PrintObject(ms) + s, 0, false) == Some(|PrintObject(ms)|)
  {
    hide ObjectEnd, PrintObject, PrintRest;
    EndOverRest(ms, s);
    var body := ObjectIsRest(ms);
    Regroup3("{", body, s);
    EndAfterBrace(body + s);
    var comma := if ms == [] then "" else ",";
    Regroup3(comma, body, s);
    EndOverQuiet(comma, body + s, 1);
  }

  // ---- Arrays ---------------------------------------------------------------------------------------------

  /** An object with the whitespace before and after it. */
  datatype Item = Item(before: string, members: seq<Member>, after: string)

  predicate WfItems(items: seq<Item>) {
    forall i :: 0 <= i < |items| ==> AllWs(items[i].before) && Wf(items[i].members) && AllWs(items[i].after)
  }

  function PrintItems(items: seq<Item>): string
    requires items != []
  {
    items[0].before + PrintObject(items[0].members) + items[0].after
      + (if |items| == 1 then "]" else "," + PrintItems(items[1..]))
  }

  function PrintArray(before: string, inside: string, items: seq<Item>): string {
    before + "[" + (if items == [] then inside + "]" else PrintItems(items))
  }

  /** The three fields the scanner takes from one object. */
  function Extract(ms: seq<Member>): Option<Fields> {
    var p := Bounded(Lookup(ms, PAYMENT_ID), PAYMENT_ID_MAX);
    var t := Bounded(Lookup(ms, TX_HASH), TX_HASH_MAX);
    var c := Bounded(Lookup(ms, PACKET_C), PACKET_C_MAX);
    if p.Some? && t.Some? && c.Some? then Some(Fields(p.value, t.value, c.value)) else None
  }

  /** An object is read exactly when each field leads to a string that leaves room for the terminating zero in its
      bucket of 96, 80 or 240 characters, and then as those strings. */
  lemma ExtractExactly(ms: seq<Member>, f: Fields)
    ensures Extract(ms) == Some(f) <==>
            && Lookup(ms, "payment_id") == Some(f.paymentId) && |f.paymentId| <= 95
            && Lookup(ms, "settlement_tx_hash") == Some(f.txHash) && |f.txHash| <= 79
            && Lookup(ms, "packet_c_hex") == Some(f.packetCHex) && |f.packetCHex| <= 239
  {
    hide Lookup;
  }

  /** The fields of the first max objects, or None if one of them lacks a usable field. */
  function ExtractAll(items: seq<Item>, max: nat): Option<seq<Fields>> {
    if items == [] || max == 0 then Some([])
    else
      match Extract(items[0].members)
      case None => None
      case Some(f) => Cons(f, ExtractAll(items[1..], max - 1))
  }

  lemma BraceFirst(ms: seq<Member>)
    ensures PrintObject(ms) != [] && PrintObject(ms)[0] == '{'
  {
  }

  lemma AfterItemStep(s: string, f: Fields, max: nat)
    requires max > 0 && s != [] && (s[0] == ',' || s[0] == ']')
    ensures AfterItem(s, f, max) ==
            if max == 1 || s[0] == ']' then Some([f]) else Cons(f, ParseItems(s[1..], max - 1))
  {
    SkipWsStop(s);
  }

  lemma AfterItemOver(w: string, s: string, f: Fields, max: nat)
    requires max > 0 && AllWs(w)
    ensures AfterItem(w + s, f, max) == AfterItem(s, f, max)
  {
    SkipWsOver(w, s);
  }

  lemma ParseItemsStep(item: Item, s: string, max: nat)
    requires AllWs(item.before) && Wf(item.members) && AllWs(item.after)
    requires max > 0 && s != [] && (s[0] == ',' || s[0] == ']')
    ensures ParseItems(item.before + PrintObject(item.members) + item.after + s, max) ==
            match Extract(item.members)
            case None => None
            case Some(f) =>
              if max == 1 || s[0] == ']' then Some([f]) else Cons(f, ParseItems(s[1..], max - 1))
  {
    hide SkipWs, ObjectEnd, ParseObject, ParseItems, AfterItem, PrintObject, Extract;
    var obj := PrintObject(item.members);
    var t := obj + (item.after + s);
    Regroup4(item.before, obj, item.after, s);
    SkipWsOver(item.before, t);
    BraceFirst(item.members);
    SkipWsStop(t);
    EndOfObject(item.members, item.after + s);
    assert t[..|obj|] == obj && t[|obj|..] == item.after + s;
    ParseObjectIsExtract(item.members);
    ParseItemsIs(item.before + t, max, |obj|);
    if Extract(item.members).Some? {
      var f := Extract(item.members).value;
      AfterItemOver(item.after, s, f, max);
      AfterItemStep(s, f, max);
    }
  }

  lemma KeysPlain()
    ensures Plain(PAYMENT_ID) && Plain(TX_HASH) && Plain(PACKET_C)
  {
  }

  lemma ParseObjectIsExtract(ms: seq<Member>)
    requires Wf(ms)
    ensures ParseObject(PrintObject(ms)) == Extract(ms)
  {
    KeysPlain();
    hide Plain, FindKey, Lookup, PrintObject, Wf;
    FindKeyObject(ms, PAYMENT_ID);
    FindKeyObject(ms, TX_HASH);
    FindKeyObject(ms, PACKET_C);
  }

  lemma {:induction false} ParseItemsPrinted(items: seq<Item>, max: nat, junk: string)
    requires items != [] && WfItems(items) && max > 0
    ensures ParseItems(PrintItems(items) + junk, max) == ExtractAll(items, max)
    decreases |items|
  {
    hide ParseItems, PrintObject, Extract;
    var item := items[0];
    var tail := if |items| == 1 then "]" else "," + PrintItems(items[1..]);
    Regroup3(item.before + PrintObject(item.members) + item.after, tail, junk);
    ParseItemsStep(item, tail + junk, max);
    if Extract(item.members).Some? {
      ConsNothing(Extract(item.members).value);
    }
    if |items| > 1 && max > 1 {
      assert (tail + junk)[1..] == PrintItems(items[1..]) + junk;
      ParseItemsPrinted(items[1..], max - 1, junk);
    }
  }

  lemma ConsNothing(f: Fields)
    ensures Cons(f, Some([])) == Some([f])
  {
    assert [f] + [] == [f];
  }

  /** Main result, for every printed array and every cap: the scanner returns the extracted fields of the first
      min(n, max) objects, and fails exactly when one of those lacks a usable field. Anything may follow. */
  lemma ScannerUndoesPrinter(before: string, inside: string, items: seq<Item>, max: nat, junk: string)
    requires AllWs(before) && AllWs(inside) && WfItems(items) && max > 0
    ensures Parse(PrintArray(before, inside, items) + junk, max) == ExtractAll(items, max)
  {
    hide SkipWs, ParseItems, PrintItems, Extract;
    var rest := (if items == [] then inside + "]" else PrintItems(items)) + junk;
    Regroup4(before, "[", if items == [] then inside + "]" else PrintItems(items), junk);
    SkipWsOver(before, "[" + rest);
    SkipWsStop("[" + rest);
    assert ("[" + rest)[1..] == rest;
    if items == [] {
      Regroup3(inside, "]", junk);
      SkipWsOver(inside, "]" + junk);
      SkipWsStop("]" + junk);
    } else {
      ParseItemsPrinted(items, max, junk);
      FirstIsBrace(items, junk);
      ParseItemsOfSkipped(rest, max);
    }
  }

  lemma {:induction false} SkipWsTwice(s: string)
    ensures SkipWs(SkipWs(s)) == SkipWs(s)
    decreases |s|
  {
    if s != [] && IsWs(s[0]) {
      SkipWsTwice(s[1..]);
    }
  }

  lemma ParseItemsOfSkipped(s: string, max: nat)
    requires max > 0
    ensures ParseItems(SkipWs(s), max) == ParseItems(s, max)
  {
    SkipWsTwice(s);
  }

  lemma FirstIsBrace(items: seq<Item>, junk: string)
    requires items != [] && WfItems(items)
    ensures var u := SkipWs(PrintItems(items) + junk); u != [] && u[0] == '{'
  {
    hide SkipWs, PrintObject;
    var item := items[0];
    var tail := if |items| == 1 then "]" else "," + PrintItems(items[1..]);
    var t := PrintObject(item.members) + (item.after + (tail + junk));
    Regroup3(item.before + PrintObject(item.members) + item.after, tail, junk);
    Regroup4(item.before, PrintObject(item.members), item.after, tail + junk);
    BraceFirst(item.members);
    SkipWsOver(item.before, t);
    SkipWsStop(t);
  }

  /** ExtractAll is positional: record i is what object i alone gives. */
  lemma {:induction false} ExtractAllAt(items: seq<Item>, max: nat, i: nat)
    requires ExtractAll(items, max).Some?
    ensures |ExtractAll(items, max).value| == if |items| < max then |items| else max
    ensures i < |ExtractAll(items, max).value| ==>
              Extract(items[i].members) == Some(ExtractAll(items, max).value[i])
    decreases |items|
  {
    if items != [] && max > 0 {
      ExtractAllAt(items[1..], max - 1, if i > 0 then i - 1 else 0);
    }
  }

  /** A member printed without whitespace, as the gateway prints it. */
  function TextMember(key: string, v: string): (m: Member)
    ensures Plain(key) && Plain(v) ==> WfMember(m)
  {
    Member("", key, "", "", Text(v), "")
  }

  const SHADOWED: seq<Member> :=
    [TextMember("w", PAYMENT_ID), TextMember(PAYMENT_ID, "7"), TextMember(TX_HASH, "0"), TextMember(PACKET_C, "0")]

  lemma ShadowedWf()
    ensures Wf(SHADOWED)
  {
    KeysPlain();
    hide TextMember, WfMember;
    assert Plain("w") && Plain("7") && Plain("0");
  }

  lemma ShadowedLookup()
    ensures Meaning(SHADOWED, PAYMENT_ID) == Some("7") && Extract(SHADOWED) == None
  {
    assert SHADOWED[1..][0].key == PAYMENT_ID;
    assert Lookup(SHADOWED, PAYMENT_ID) == None;
  }

  /** The quirk: an object whose earlier string value is the text payment_id is refused, although it is valid
      JSON with all three fields. */
  lemma ShadowedRecordRefused()
    ensures Wf(SHADOWED) && Meaning(SHADOWED, PAYMENT_ID) == Some("7")
    ensures Parse(PrintArray("", "", [Item("", SHADOWED, "")]), 10) == None
  {
    hide *;
    ShadowedWf();
    ShadowedLookup();
    OneObjectRefused(SHADOWED, 10);
  }

  lemma OneObjectRefused(ms: seq<Member>, max: nat)
    requires Wf(ms) && Extract(ms) == None && max > 0
    ensures Parse(PrintArray("", "", [Item("", ms, "")]), max) == None
  {
    hide Parse, PrintArray, Extract, Wf;
    var items := [Item("", ms, "")];
    ScannerUndoesPrinter("", "", items, max, "");
    assert PrintArray("", "", items) + "" == PrintArray("", "", items);
  }
}
