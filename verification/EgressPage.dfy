/** The gateway's two egress endpoints (gateway/internal/api/handlers/egress.go) and the text of a page of
    receipts as the bouncer's scanner sees it. */
module EgressPage {
  import opened Words
  import opened EgressHex
  import opened ReceiptStore
  import opened EgressRoundTrip
  import EgressJson
  import Orchestrator
  import P = Processor
  import L = Pipeline
  import StoreRuns
  import Builders
  import W = Watcher

  // ---- The endpoints ----------------------------------------------------------------------------------------

  const PAGE_SIZE: nat := L.PAGE_SIZE

  class EgressHandlers {
    var store: Store?

    constructor (store: Store?)
      ensures this.store == store
    {
      this.store := store;
    }

    method HandleEgressPending() returns (status: int, records: seq<Record>)
      ensures store == null ==> status == 503 && records == []
      ensures store != null ==> status == 200 && records == Pending(store.CacheOf(), 10)
    {
      if store == null {
        return 503, [];
      }
      records := store.PendingRecords(PAGE_SIZE);
      status := 200;
    }

    /** `body` is the parsed request, None if it is no JSON object of that shape. */
    method HandleEgressAck(body: Option<(string, string)>, w: Write) returns (status: int)
      modifies if store == null then {} else {store, store.file}
      ensures status == 503 <==> store == null
      ensures status == 400 <==> store != null && (body.None? || body.value.0 == "" || body.value.1 == "")
      ensures status in {503, 400} ==> store == null || store.StateOf() == old(store.StateOf())
      ensures status !in {503, 400} ==>
                (store.StateOf(), status) == AckResult(old(store.StateOf()), DedupKey(body.value.0, body.value.1), w)
    {
      if store == null {
        return 503;
      }
      if body.None? {
        return 400;
      }
      if body.value.0 == "" || body.value.1 == "" {
        return 400;
      }
      var e := store.MarkDispatched(body.value.0, body.value.1, w);
      status := StatusOf(e);
    }
  }

  function StatusOf(e: Error): int {
    match e
    case NoError => 200
    case ErrUnknown => 404
    case _ => 500
  }

  function AckResult(s: State, key: string, w: Write): (State, int) {
    var (t, e) := MarkResult(s, key, w);
    (t, StatusOf(e))
  }

  /** 200 means the record is dispatched, 404 that there is none, and repeating an acknowledgement that got 200
      gets 200 again and writes nothing. */
  lemma AckMeaning(s: State, key: string, w: Write, again: Write)
    ensures var (t, status) := AckResult(s, key, w);
            && (status == 200 <==> key in t.cache.records && t.cache.records[key].dispatchStatus == DISPATCHED)
            && (status == 404 <==> key !in s.cache.records)
            && (status != 200 ==> t.cache == s.cache)
            && (status == 200 ==> AckResult(t, key, again) == (t, 200))
  {
  }

  // ---- The text of a page ----------------------------------------------------------------------------------

  function BareMember(key: string, v: string): Member {
    Member("", key, "", "", Bare(v), "")
  }

  function Signed(v: int): string {
    if v < 0 then "-" + Decimal(-v) else Decimal(v)
  }

  /** The JSON names of a record's fields, in the order of the Go struct. */
  datatype Column = PaymentId | SettlementTxHash | SatId | Amount | AssetId | Wallet | PacketCHex | BlockNumber | TsMs
                  | DispatchStatus

  function Name(c: Column): string {
    match c
    case PaymentId => "payment_id"
    case SettlementTxHash => "settlement_tx_hash"
    case SatId => "sat_id"
    case Amount => "amount"
    case AssetId => "asset_id"
    case Wallet => "wallet"
    case PacketCHex => "packet_c_hex"
    case BlockNumber => "block_number"
    case TsMs => "ts_ms"
    case DispatchStatus => "dispatch_status"
  }

  function NameLength(c: Column): nat {
    match c
    case PaymentId => 10
    case SettlementTxHash => 18
    case SatId => 6
    case Amount => 6
    case AssetId => 8
    case Wallet => 6
    case PacketCHex => 12
    case BlockNumber => 12
    case TsMs => 5
    case DispatchStatus => 15
  }

  lemma NameIs(c: Column)
    ensures Plain(Name(c)) && |Name(c)| == NameLength(c)
  {
  }

  lemma ScannedNames()
    ensures Name(PaymentId) == PAYMENT && Name(SettlementTxHash) == HASH && Name(PacketCHex) == FRAME
    ensures |PAYMENT| == 10 && |HASH| == 18 && |FRAME| == 12
  {
  }

  function MemberOf(rec: Record, c: Column): Member {
    match c
    case PaymentId => TextMember(Name(c), rec.paymentId)
    case SettlementTxHash => TextMember(Name(c), rec.settlementTxHash)
    case SatId => BareMember(Name(c), Decimal(rec.satId))
    case Amount => TextMember(Name(c), rec.amount)
    case AssetId => BareMember(Name(c), Decimal(rec.assetId))
    case Wallet => TextMember(Name(c), rec.wallet)
    case PacketCHex => TextMember(Name(c), rec.packetCHex)
    case BlockNumber => BareMember(Name(c), Decimal(rec.blockNumber))
    case TsMs => BareMember(Name(c), Signed(rec.tsMs))
    case DispatchStatus => TextMember(Name(c), rec.dispatchStatus)
  }

  /** The order of the fields in the Go struct. */
  function ColumnAt(i: nat): Column
    requires i < 10
  {
    match i
    case 0 => PaymentId
    case 1 => SettlementTxHash
    case 2 => SatId
    case 3 => Amount
    case 4 => AssetId
    case 5 => Wallet
    case 6 => PacketCHex
    case 7 => BlockNumber
    case 8 => TsMs
    case _ => DispatchStatus
  }

  function MembersTo(rec: Record, n: nat): (r: seq<Member>)
    requires n <= 10
    ensures |r| == n && forall i :: 0 <= i < n ==> r[i] == MemberOf(rec, ColumnAt(i))
  {
    if n == 0 then [] else MembersTo(rec, n - 1) + [MemberOf(rec, ColumnAt(n - 1))]
  }

  /** The members of a record; a blank status is omitted. */
  function Members(rec: Record): seq<Member> {
    MembersTo(rec, if rec.dispatchStatus == "" then 9 else 10)
  }

  function Items(recs: seq<Record>): (r: seq<Item>)
    ensures |r| == |recs|
  {
    if recs == [] then [] else [Item("", Members(recs[0]), "")] + Items(recs[1..])
  }

  /** The response body: a bare array without whitespace. */
  function PageBody(recs: seq<Record>): string {
    PrintArray("", "", Items(recs))
  }

  // ---- What the processor's records look like ---------------------------------------------------------------

  predicate IsAlnum(c: char) {
    '0' <= c <= '9' || 'a' <= c <= 'z' || 'A' <= c <= 'Z'
  }

  predicate Alnum(s: string) {
    forall i :: 0 <= i < |s| ==> IsAlnum(s[i])
  }

  lemma AlnumIsPlain(s: string)
    requires Alnum(s)
    ensures Plain(s) && Quiet(s) && '\0' !in s
    ensures s != PAYMENT && s != HASH && s != FRAME
  {
    assert PAYMENT[7] == '_' && HASH[10] == '_' && FRAME[6] == '_';
  }

  const PAYMENT := EgressJson.PAYMENT_ID
  const HASH := EgressJson.TX_HASH
  const FRAME := EgressJson.PACKET_C

  predicate KnownStatus(s: string) {
    s == PENDING || s == DISPATCHED
  }

  predicate Rendered(rec: Record) {
    && Alnum(rec.paymentId) && |rec.paymentId| <= 78
    && Alnum(rec.settlementTxHash) && |rec.settlementTxHash| == 66
    && Alnum(rec.amount) && |rec.amount| <= 78
    && Alnum(rec.wallet) && |rec.wallet| == 42
    && Alnum(rec.packetCHex) && |rec.packetCHex| == 224
    && rec.tsMs < TWO64 && 0 < rec.tsMs + TWO64 && KnownStatus(rec.dispatchStatus)
  }

  lemma {:induction false} HexIsAlnum(s: Bytes)
    ensures Alnum(HexOf(s))
    decreases |s|
  {
    hide HexChar;
    if s != [] {
      HexIsAlnum(s[..|s| - 1]);
      HexCharIsAlnum(s[|s| - 1] / 16);
      HexCharIsAlnum(s[|s| - 1] % 16);
    }
  }

  lemma HexCharIsAlnum(n: nat)
    requires n < 16
    ensures IsAlnum(HexChar(n))
  {
  }

  lemma DecimalIsAlnum(n: nat)
    ensures Alnum(Decimal(n))
  {
    DecimalIsDigits(n);
  }

  /** The rendering of an address: 0x and 40 hex digits in either case. */
  ghost predicate WalletsRendered(cfg: P.Config) {
    forall w: Address :: |cfg.walletHex(w)| == 42 && Alnum(cfg.walletHex(w))
  }

  /** Every record the processor can have built is rendered in these characters and lengths. */
  lemma GenuineIsRendered(cfg: P.Config, ev: W.Event, rec: Record)
    requires cfg.crypto.Sound() && WalletsRendered(cfg) && |ev.txHash| == 32
    requires L.OfEvent(cfg, ev, rec) && KnownStatus(rec.dispatchStatus)
    ensures Rendered(rec)
  {
    hide HexOf, Decimal, P.FrameOf, Alnum;
    var q: U16 :| StoreRuns.SameBody(rec, P.RecordOf(cfg, ev, q));
    DecimalIsAlnum(ev.txNonce);
    DecimalIsAlnum(ev.amount);
    DecimalWidths(ev.txNonce);
    DecimalWidths(ev.amount);
    HexIsAlnum(ev.txHash);
    HashIsAlnum(ev.txHash);
    HexIsAlnum(P.FrameOf(cfg, ev, q));
    FrameOfLength(cfg, ev, q);
    assert rec.(dispatchStatus := "") == P.RecordOf(cfg, ev, q).(dispatchStatus := "");
  }

  lemma HashIsAlnum(h: Bytes)
    requires Alnum(HexOf(h))
    ensures Alnum(P.HashHex(h))
  {
  }

  lemma FrameOfLength(cfg: P.Config, ev: W.Event, q: U16)
    requires cfg.crypto.Sound()
    ensures |P.FrameOf(cfg, ev, q)| == 112
  {
    Builders.CFrameGood(P.InputsOf(cfg, ev, q), cfg.crypto);
  }

  // ---- The scanner reads the page back --------------------------------------------------------------------------

  function FieldsOf(rec: Record): EgressJson.Fields {
    EgressJson.Fields(rec.paymentId, rec.settlementTxHash, rec.packetCHex)
  }

  function AllFields(recs: seq<Record>): seq<EgressJson.Fields> {
    if recs == [] then [] else [FieldsOf(recs[0])] + AllFields(recs[1..])
  }

  lemma {:induction false} LookupAt(ms: seq<Member>, key: string, i: nat)
    requires i < |ms| && ms[i].key == key && ms[i].value.Text?
    requires forall j :: 0 <= j < i ==> ms[j].key != key && ms[j].value != Text(key)
    ensures Lookup(ms, key) == Some(ms[i].value.s)
    decreases i
  {
    if i > 0 {
      LookupAt(ms[1..], key, i - 1);
    }
  }

  lemma MembersRead(rec: Record)
    requires Rendered(rec)
    ensures Lookup(Members(rec), PAYMENT) == Some(rec.paymentId)
    ensures Lookup(Members(rec), HASH) == Some(rec.settlementTxHash)
    ensures Lookup(Members(rec), FRAME) == Some(rec.packetCHex)
  {
    ScannedNames();
    NamesArePlain();
    hide Lookup, Alnum, Decimal, Signed, Plain, Quiet, Name;
    AlnumIsPlain(rec.paymentId);
    AlnumIsPlain(rec.settlementTxHash);
    AlnumIsPlain(rec.amount);
    AlnumIsPlain(rec.wallet);
    LookupAt(Members(rec), PAYMENT, 0);
    LookupAt(Members(rec), HASH, 1);
    LookupAt(Members(rec), FRAME, 6);
  }

  lemma SignedIsQuiet(v: int)
    ensures Quiet(Signed(v))
  {
    hide Decimal;
    DecimalIsAlnum(if v < 0 then -v else v);
  }

  lemma StatusText(s: string)
    requires KnownStatus(s)
    ensures Plain(s) && s != "" && |s| <= 10
  {
  }

  lemma NamesArePlain()
    ensures forall c :: Plain(Name(c)) && |Name(c)| == NameLength(c)
  {
    hide Plain, Name, NameLength;
    forall c ensures Plain(Name(c)) && |Name(c)| == NameLength(c) {
      NameIs(c);
    }
  }

  lemma MemberIsWf(rec: Record, c: Column)
    requires Rendered(rec)
    ensures WfMember(MemberOf(rec, c))
  {
    NameIs(c);
    hide Name, NameLength, Plain, Quiet, Alnum, Decimal, Signed, KnownStatus;
    match c
    case PaymentId => AlnumIsPlain(rec.paymentId);
    case SettlementTxHash => AlnumIsPlain(rec.settlementTxHash);
    case SatId => NumberIsQuiet(rec.satId);
    case Amount => AlnumIsPlain(rec.amount);
    case AssetId => NumberIsQuiet(rec.assetId);
    case Wallet => AlnumIsPlain(rec.wallet);
    case PacketCHex => AlnumIsPlain(rec.packetCHex);
    case BlockNumber => NumberIsQuiet(rec.blockNumber);
    case TsMs => SignedIsQuiet(rec.tsMs);
    case DispatchStatus => StatusText(rec.dispatchStatus);
  }

  lemma NumberIsQuiet(n: nat)
    ensures Quiet(Decimal(n))
  {
    hide Decimal;
    DecimalIsAlnum(n);
    AlnumIsPlain(Decimal(n));
  }

  lemma MembersWf(rec: Record)
    requires Rendered(rec)
    ensures Wf(Members(rec))
  {
    hide MemberOf, WfMember, Rendered, MembersTo, ColumnAt;
    forall c ensures WfMember(MemberOf(rec, c)) {
      MemberIsWf(rec, c);
    }
  }

  lemma RecordExtracts(rec: Record)
    requires Rendered(rec)
    ensures Extract(Members(rec)) == Some(FieldsOf(rec))
  {
    hide Members, Lookup, Alnum;
    MembersRead(rec);
  }

  predicate AllRendered(recs: seq<Record>) {
    forall i :: 0 <= i < |recs| ==> Rendered(recs[i])
  }

  lemma {:induction false} PageExtracts(recs: seq<Record>, max: nat)
    requires AllRendered(recs) && |recs| <= max
    ensures WfItems(Items(recs)) && ExtractAll(Items(recs), max) == Some(AllFields(recs))
    decreases |recs|
  {
    hide Extract, Members, FieldsOf, Rendered, Wf;
    if recs != [] {
      MembersWf(recs[0]);
      RecordExtracts(recs[0]);
      PageExtracts(recs[1..], max - 1);
      assert Items(recs)[1..] == Items(recs[1..]);
    }
  }

  /** Whatever page of processor-built records the gateway sends, the bouncer scans exactly its records' three
      fields, in order. */
  lemma PageReadsBack(recs: seq<Record>, max: nat)
    requires AllRendered(recs) && |recs| <= max && max > 0
    ensures EgressJson.Parse(PageBody(recs), max) == Some(AllFields(recs))
  {
    hide EgressJson.Parse, PrintArray, ExtractAll, Items, AllFields, Rendered;
    PageExtracts(recs, max);
    ScannerUndoesPrinter("", "", Items(recs), max, "");
    assert PrintArray("", "", Items(recs)) + "" == PrintArray("", "", Items(recs));
  }

  // ---- The page fits its buffers ---------------------------------------------------------------------------------

  /** The members with one separator each. */
  function Total(ms: seq<Member>): nat {
    if ms == [] then 0 else |PrintMember(ms[0])| + 1 + Total(ms[1..])
  }

  lemma {:induction false} RestLength(ms: seq<Member>)
    ensures |PrintRest(ms)| == 1 + Total(ms)
    decreases |ms|
  {
    if ms != [] {
      RestLength(ms[1..]);
    }
  }

  lemma MemberLengths(k: string, v: string)
    ensures |PrintMember(TextMember(k, v))| == |k| + |v| + 5
    ensures |PrintMember(BareMember(k, v))| == |k| + |v| + 3
  {
  }

  function WidthOf(c: Column): nat {
    match c
    case PaymentId => 93
    case SettlementTxHash => 89
    case SatId => 19
    case Amount => 89
    case AssetId => 21
    case Wallet => 53
    case PacketCHex => 241
    case BlockNumber => 35
    case TsMs => 29
    case DispatchStatus => 30
  }

  lemma NumberWidth(n: nat)
    requires n < TWO64
    ensures |Decimal(n)| <= 20
    ensures n < TWO32 ==> |Decimal(n)| <= 10
  {
    DecimalWidths(n);
    hide Decimal;
  }

  lemma SignedWidth(v: int)
    requires v < TWO64 && 0 < v + TWO64
    ensures |Signed(v)| <= 21
  {
    NumberWidth(if v < 0 then -v else v);
    hide Decimal;
  }

  lemma MemberWidth(rec: Record, c: Column)
    requires Rendered(rec)
    ensures |PrintMember(MemberOf(rec, c))| <= WidthOf(c)
  {
    NameIs(c);
    hide Name, Decimal, Signed, PrintMember, TextMember, BareMember, Alnum, Plain, KnownStatus;
    match c
    case PaymentId => MemberLengths(Name(c), rec.paymentId);
    case SettlementTxHash => MemberLengths(Name(c), rec.settlementTxHash);
    case SatId =>
      NumberWidth(rec.satId);
      MemberLengths(Name(c), Decimal(rec.satId));
    case Amount => MemberLengths(Name(c), rec.amount);
    case AssetId =>
      NumberWidth(rec.assetId);
      MemberLengths(Name(c), Decimal(rec.assetId));
    case Wallet => MemberLengths(Name(c), rec.wallet);
    case PacketCHex => MemberLengths(Name(c), rec.packetCHex);
    case BlockNumber =>
      NumberWidth(rec.blockNumber);
      MemberLengths(Name(c), Decimal(rec.blockNumber));
    case TsMs =>
      SignedWidth(rec.tsMs);
      MemberLengths(Name(c), Signed(rec.tsMs));
    case DispatchStatus =>
      StatusText(rec.dispatchStatus);
      MemberLengths(Name(c), rec.dispatchStatus);
  }

  lemma TotalStep(ms: seq<Member>, i: nat)
    requires i < |ms|
    ensures Total(ms[i..]) == |PrintMember(ms[i])| + 1 + Total(ms[i + 1..])
  {
    assert ms[i..][1..] == ms[i + 1..];
  }

  const RECORD_MAX: nat := 710

  /** The most the first i members and their separators can take. */
  function Spent(i: nat): nat
    requires i <= 10
  {
    if i == 0 then 0 else Spent(i - 1) + WidthOf(ColumnAt(i - 1)) + 1
  }

  lemma SpentInAll()
    ensures Spent(10) == RECORD_MAX - 1
  {
    assert Spent(3) == 204;
    assert Spent(6) == 370;
    assert Spent(8) == 648;
  }

  lemma RecordLength(rec: Record)
    requires Rendered(rec)
    ensures |PrintObject(Members(rec))| <= RECORD_MAX
  {
    SpentInAll();
    StatusText(rec.dispatchStatus);
    hide MemberOf, MembersTo, ColumnAt, WidthOf, PrintMember, Total, Rendered;
    var ms := Members(rec);
    assert ms[0..] == ms;
    for i := 0 to 10
      invariant Total(ms) <= Spent(i) + Total(ms[i..])
    {
      MemberWidth(rec, ColumnAt(i));
      TotalStep(ms, i);
    }
    assert ms[10..] == [];
    TotalNothing();
    RestLength(ms[1..]);
    TotalStep(ms, 0);
  }

  lemma TotalNothing()
    ensures Total([]) == 0
  {
  }

  lemma {:induction false} ItemsLength(recs: seq<Record>)
    requires AllRendered(recs) && recs != []
    ensures |PrintItems(Items(recs))| <= (RECORD_MAX + 1) * |recs|
    decreases |recs|
  {
    hide Members, PrintObject, Rendered;
    RecordLength(recs[0]);
    assert Items(recs)[1..] == Items(recs[1..]);
    if |recs| > 1 {
      ItemsLength(recs[1..]);
    }
  }

  /** No page is refused for its size: ten records stay below 8192 bytes and every scanned field below its
      bucket. */
  lemma PageFits(recs: seq<Record>)
    requires AllRendered(recs) && |recs| <= 10
    ensures |PageBody(recs)| <= 7111 < 8192 == Orchestrator.RESPONSE_BUF_SIZE
    ensures forall i :: 0 <= i < |recs| ==>
              |recs[i].paymentId| < 96 && |recs[i].settlementTxHash| < 80 && |recs[i].packetCHex| < 240
  {
    hide Items, PrintItems, Alnum;
    if recs != [] {
      ItemsLength(recs);
    }
  }

  // ---- Nothing is lost in printing ------------------------------------------------------------------------------

  lemma SignedInjective(v: int, w: int)
    requires Signed(v) == Signed(w)
    ensures v == w
  {
    if v < 0 {
      assert Signed(v)[0] == '-' && Signed(v)[1..] == Decimal(-v);
    } else {
      DecimalIsDigits(v);
      assert '0' <= Decimal(v)[0] <= '9';
    }
    if w < 0 {
      assert Signed(w)[0] == '-' && Signed(w)[1..] == Decimal(-w);
    } else {
      DecimalIsDigits(w);
      assert '0' <= Decimal(w)[0] <= '9';
    }
    DecimalInjective(if v < 0 then -v else v, if w < 0 then -w else w);
  }

  lemma SameMember(a: Record, b: Record, i: nat)
    requires i < |Members(a)| && Members(a) == Members(b) && i < 10
    ensures MemberOf(a, ColumnAt(i)) == MemberOf(b, ColumnAt(i))
  {
    hide MemberOf, ColumnAt;
  }

  /** The fields in the order of the Go struct, under their JSON names; a blank status is left out. */
  lemma NamesInOrder(rec: Record)
    ensures var names := ["payment_id", "settlement_tx_hash", "sat_id", "amount", "asset_id", "wallet", "packet_c_hex",
                          "block_number", "ts_ms", "dispatch_status"];
            && |Members(rec)| == (if rec.dispatchStatus == "" then 9 else 10)
            && forall i :: 0 <= i < |Members(rec)| ==> Members(rec)[i].key == names[i]
  {
    hide Decimal, Signed;
  }

  /** The members printed for a record determine it: no two records look the same on the page. */
  lemma MembersIdentify(a: Record, b: Record)
    requires Members(a) == Members(b)
    ensures a == b
  {
    hide Name, Decimal, Signed;
    assert |Members(a)| == |Members(b)| >= 9;
    forall i | 0 <= i < 9 ensures MemberOf(a, ColumnAt(i)) == MemberOf(b, ColumnAt(i)) {
      SameMember(a, b, i);
    }
    assert ColumnAt(0) == PaymentId && ColumnAt(1) == SettlementTxHash && ColumnAt(2) == SatId && ColumnAt(3) == Amount;
    assert ColumnAt(4) == AssetId && ColumnAt(5) == Wallet && ColumnAt(6) == PacketCHex && ColumnAt(7) == BlockNumber;
    assert ColumnAt(8) == TsMs && ColumnAt(9) == DispatchStatus;
    DecimalInjective(a.satId, b.satId);
    DecimalInjective(a.assetId, b.assetId);
    DecimalInjective(a.blockNumber, b.blockNumber);
    SignedInjective(a.tsMs, b.tsMs);
    if a.dispatchStatus != "" {
      SameMember(a, b, 9);
    }
  }
}
