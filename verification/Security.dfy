/** The satellite's session and monotonic-epoch guard (void-core/src/security_manager.cpp, encrypted build unless
    said otherwise). Key generation, key agreement, cipher and signature are parameters. */
module Security {
  import opened Words
  import opened Layout
  import opened Frames
  import opened Builders

  datatype SessionState = IDLE | HANDSHAKE_INIT | HANDSHAKE_WAIT | ACTIVE | LOCKED

  /** `agreed` says that the key in use came from a successful key agreement; `used` records every accepted payment. */
  datatype Guard = Guard(state: SessionState, startTs: U64, ttl: U32, lastTxEpochMs: U64, gpsTimeValid: bool,
                         sessionKey: Bytes, agreed: bool, used: seq<Use>)

  datatype Stamp = Stamp(satId: U32, epoch: U64)

  /** An accepted payment: its stamp, the session key it went out under, and whether that key was agreed. */
  datatype Use = Use(stamp: Stamp, key: Bytes, agreed: bool)

  /** The 12 bytes the code derives. */
  function NonceOf(s: Stamp): (n: Bytes)
    ensures |n| == 12
  {
    LE(s.satId, 4) + LE(s.epoch, 8)
  }

  /** The nonce of crypto_stream_chacha20_xor has 8 bytes: of the 12 it is handed, the cipher reads the first 8. */
  function CipherNonce(s: Stamp): Bytes {
    NonceOf(s)[..8]
  }

  function ZeroKey(): Bytes {
    seq(32, _ => 0)
  }

  /** The state after a boot whose guard was restored to the given epoch; the code restores 0. */
  function BootedWith(restored: U64): Guard {
    Guard(IDLE, 0, 0, restored, false, ZeroKey(), false, [])
  }

  datatype Call =
    | Prepare(ttl: U16, now: U64)
    | Respond(shared: Option<Bytes>, junk: Bytes)
    | Encrypt(len: nat, stamp: Stamp)
    | CheckActive(now: U64)
    | Wipe
    | SetGps(valid: bool)

  /** encryptPacketB accepts: the payload fits, the session is active, GPS time is valid and the epoch is new. */
  predicate Admits(g: Guard, len: nat, epoch: U64) {
    len <= 62 && g.state == ACTIVE && g.gpsTimeValid && epoch > g.lastTxEpochMs
  }

  /** Elapsed time wraps in 64 bits, the allowance in 32. */
  predicate Expired(g: Guard, now: U64) {
    (now - g.startTs) % TWO64 > g.ttl * 1000 % TWO32
  }

  function Wiped(g: Guard): Guard {
    g.(sessionKey := ZeroKey(), agreed := false, state := IDLE)
  }

  function Next(g: Guard, c: Call): Guard {
    match c
    case Prepare(ttl, now) => g.(state := HANDSHAKE_INIT, ttl := ttl, startTs := now)
    case Respond(shared, junk) =>
      if shared.None? then g.(sessionKey := junk, agreed := false)
      else g.(sessionKey := shared.value, agreed := true, state := ACTIVE)
    case Encrypt(len, stamp) =>
      if Admits(g, len, stamp.epoch)
      then g.(lastTxEpochMs := stamp.epoch, used := g.used + [Use(stamp, g.sessionKey, g.agreed)])
      else g
    case CheckActive(now) => if g.state == ACTIVE && Expired(g, now) then Wiped(g) else g
    case Wipe => Wiped(g)
    case SetGps(valid) => g.(gpsTimeValid := valid)
  }

  function Run(boot: Guard, calls: seq<Call>): Guard {
    if calls == [] then boot else Next(Run(boot, calls[..|calls| - 1]), calls[|calls| - 1])
  }

  // ---- The object -------------------------------------------------------------------------------------------

  /** A payment packet under construction: its header bytes and the fields of its body. */
  class PaymentPacket {
    var header: Bytes
    var vals: seq<Val>

    ghost predicate Valid()
      reads this
    {
      Fits(Table(PacketB), vals)
    }

    constructor (header: Bytes, vals: seq<Val>)
      requires Fits(Table(PacketB), vals)
      ensures Valid() && this.header == header && this.vals == vals
    {
      this.header, this.vals := header, vals;
    }
  }

  const EPOCH_AT: nat := 1
  const PAYLOAD_AT: nat := 5
  const SAT_ID_AT: nat := 7
  const SIGNATURE_AT: nat := 9

  lemma PaymentFields(vals: seq<Val>)
    requires Fits(Table(PacketB), vals)
    ensures |vals| == 12 == |Table(PacketB)|
    ensures vals[EPOCH_AT].Num? && 0 <= vals[EPOCH_AT].v < TWO64
    ensures vals[SAT_ID_AT].Num? && 0 <= vals[SAT_ID_AT].v < TWO32
    ensures vals[PAYLOAD_AT].Blob? && |vals[PAYLOAD_AT].s| == 62
    ensures vals[SIGNATURE_AT].Blob? && |vals[SIGNATURE_AT].s| == 64
  {
    Pow256Values();
    assert FieldFits(Table(PacketB)[1], vals[1]) && FieldFits(Table(PacketB)[5], vals[5]);
    assert FieldFits(Table(PacketB)[7], vals[7]) && FieldFits(Table(PacketB)[9], vals[9]);
  }

  function StampOf(vals: seq<Val>): Stamp
    requires Fits(Table(PacketB), vals)
  {
    PaymentFields(vals);
    Stamp(vals[SAT_ID_AT].v, vals[EPOCH_AT].v)
  }

  function PayloadOf(vals: seq<Val>): (p: Bytes)
    requires Fits(Table(PacketB), vals)
    ensures |p| == 62
  {
    PaymentFields(vals);
    vals[PAYLOAD_AT].s
  }

  /** The stream cipher over payload, nonce and key, and the signature functions. */
  datatype Primitives = Primitives(cipher: (Bytes, Bytes, Bytes) -> Bytes, crypto: Crypto) {
    ghost predicate Sound() {
      crypto.Sound() && forall p: Bytes, n: Bytes, k: Bytes :: |cipher(p, n, k)| == |p|
    }
  }

  /** The region the signature covers: the header and the body fields before it. */
  function SignedRegion(header: Bytes, vals: seq<Val>): Bytes
    requires Fits(Table(PacketB), vals)
  {
    PaymentFields(vals);
    header + WriteTo(Table(PacketB), vals, SIGNATURE_AT)
  }

  function Filled(vals: seq<Val>, payload: Bytes): (r: seq<Val>)
    requires Fits(Table(PacketB), vals) && |payload| == 62
    ensures Fits(Table(PacketB), r)
  {
    PaymentFields(vals);
    vals[PAYLOAD_AT := Blob(payload)]
  }

  function WithSignature(vals: seq<Val>, signature: Bytes): (r: seq<Val>)
    requires Fits(Table(PacketB), vals) && |signature| == 64
    ensures Fits(Table(PacketB), r)
  {
    PaymentFields(vals);
    vals[SIGNATURE_AT := Blob(signature)]
  }

  /** The fields after `payload` has been put in front of what the payload field held, and signed. */
  ghost function Signed(prim: Primitives, identity: Bytes, header: Bytes, vals: seq<Val>, payload: Bytes): (r: seq<Val>)
    requires prim.Sound() && Fits(Table(PacketB), vals) && |payload| == 62
    ensures Fits(Table(PacketB), r)
  {
    WithSignature(Filled(vals, payload), prim.crypto.sign(identity, SignedRegion(header, Filled(vals, payload))))
  }

  /** The 6 primary header bytes prepareHandshake writes; the length is the whole packet's, less one. */
  function HandshakeHeader(snlp: bool): (h: Bytes)
    ensures |h| == 6
  {
    [0x18, 0xB2, 0xC0, 0x00, 0x00, if snlp then 119 else 111]
  }

  /** The bytes of a handshake packet; sync word and pad exist in the SNLP tier only. */
  function HandshakeFrame(sync: Bytes, primary: Bytes, pad: Bytes, ttl: U16, timestamp: U64, ephPubKey: Bytes,
                          signature: Bytes): Bytes {
    sync + primary + pad + LE(ttl, 2) + LE(timestamp, 8) + ephPubKey + signature
  }

  function ZeroSignature(): Bytes {
    seq(64, _ => 0)
  }

  /** The packet after prepareHandshake. */
  ghost function SignedHandshake(prim: Primitives, identity: Bytes, snlp: bool, sync: Bytes, pad: Bytes, ttl: U16,
                                 timestamp: U64, ephPubKey: Bytes): Bytes
    requires prim.Sound() && |sync| == |pad| == (if snlp then 4 else 0) && |ephPubKey| == 32
  {
    var h := HandshakeHeader(snlp);
    var blank := HandshakeFrame(sync, h, pad, ttl, timestamp, ephPubKey, ZeroSignature());
    HandshakeFrame(sync, h, pad, ttl, timestamp, ephPubKey, prim.crypto.sign(identity, blank[..48]))
  }

  /** The first 48 bytes do not depend on the signature. */
  lemma FirstBytes(sync: Bytes, primary: Bytes, pad: Bytes, ttl: U16, timestamp: U64, ephPubKey: Bytes, s: Bytes, t: Bytes)
    requires |sync| == |pad| <= 4 && |primary| == 6 && |ephPubKey| == 32
    ensures var f, g := HandshakeFrame(sync, primary, pad, ttl, timestamp, ephPubKey, s),
                        HandshakeFrame(sync, primary, pad, ttl, timestamp, ephPubKey, t);
            |f| >= 48 && |g| >= 48 && f[..48] == g[..48]
  {
    hide LE;
    var p := sync + primary + pad + LE(ttl, 2) + LE(timestamp, 8) + ephPubKey;
    assert (p + s)[..48] == p[..48] == (p + t)[..48];
  }

  class HandshakePacket {
    const snlp: bool
    var sync: Bytes
    var primary: Bytes
    var pad: Bytes
    var sessionTtl: U16
    var timestamp: U64
    var ephPubKey: Bytes
    var signature: Bytes

    ghost predicate Valid()
      reads this
    {
      |sync| == |pad| == (if snlp then 4 else 0) && |primary| == 6 && |ephPubKey| == 32 && |signature| == 64
    }

    function Frame(): Bytes
      reads this
    {
      HandshakeFrame(sync, primary, pad, sessionTtl, timestamp, ephPubKey, signature)
    }

    constructor (snlp: bool, sync: Bytes, pad: Bytes)
      requires |sync| == |pad| == (if snlp then 4 else 0)
      ensures Valid() && this.snlp == snlp && this.sync == sync && this.pad == pad
    {
      this.snlp, this.sync, this.pad := snlp, sync, pad;
      primary, sessionTtl, timestamp := seq(6, _ => 0), 0, 0;
      ephPubKey, signature := seq(32, _ => 0), seq(64, _ => 0);
    }
  }

  class SecurityManager {
    const prim: Primitives
    const identity: Bytes
    var state: SessionState
    var ephPriv: Bytes
    var sessionKey: Bytes
    var sessionStartTs: U64
    var sessionTtl: U32
    var lastTxEpochMs: U64
    var gpsTimeValid: bool
    ghost var agreed: bool
    ghost var used: seq<Use>

    ghost function Now(): Guard
      reads this
    {
      Guard(state, sessionStartTs, sessionTtl, lastTxEpochMs, gpsTimeValid, sessionKey, agreed, used)
    }

    constructor (prim: Primitives, identity: Bytes)
      ensures this.prim == prim && this.identity == identity && Now() == BootedWith(0)
    {
      this.prim, this.identity := prim, identity;
      state, ephPriv, sessionKey, sessionStartTs, sessionTtl := IDLE, [], ZeroKey(), 0, 0;
      lastTxEpochMs, gpsTimeValid, agreed, used := 0, false, false, [];
    }

    /** Starts a session and fills the packet, except for the sync word and the pad of the SNLP tier, which stay as
        the caller left them. The fresh key pair comes from outside; the signature is over the first 48 bytes. */
    method PrepareHandshake(pkt: HandshakePacket, freshPub: Bytes, freshPriv: Bytes, ttlSeconds: U16, currentTimeMs: U64)
      requires pkt.Valid() && |freshPub| == 32 && prim.Sound()
      modifies this, pkt
      ensures Now() == Next(old(Now()), Prepare(ttlSeconds, currentTimeMs)) && ephPriv == freshPriv
      ensures pkt.Valid() && pkt.sync == old(pkt.sync) && pkt.pad == old(pkt.pad)
      ensures pkt.Frame() == SignedHandshake(prim, identity, pkt.snlp, pkt.sync, pkt.pad, ttlSeconds, currentTimeMs, freshPub)
    {
      hide LE, ZeroKey;
      ephPriv := freshPriv;
      state := HANDSHAKE_INIT;
      sessionTtl := ttlSeconds;
      sessionStartTs := currentTimeMs;
      pkt.primary := HandshakeHeader(pkt.snlp);
      pkt.sessionTtl := ttlSeconds;
      pkt.timestamp := currentTimeMs;
      pkt.ephPubKey := freshPub;
      FirstBytes(pkt.sync, pkt.primary, pkt.pad, ttlSeconds, currentTimeMs, freshPub, pkt.signature, ZeroSignature());
      pkt.signature := prim.crypto.sign(identity, pkt.Frame()[..48]);
    }

    /** The prior state is not looked at. A failed key agreement may leave anything in the key buffer. */
    method ProcessHandshakeResponse(shared: Option<Bytes>, junk: Bytes) returns (ok: bool)
      modifies this
      ensures ok == shared.Some? && Now() == Next(old(Now()), Respond(shared, junk))
      ensures ok ==> ephPriv == ZeroKey()
    {
      if shared.None? {
        sessionKey := junk;
        agreed := false;
        return false;
      }
      sessionKey := shared.value;
      agreed := true;
      ephPriv := ZeroKey();
      state := ACTIVE;
      ok := true;
    }

    /** A rejected call changes neither guard nor packet; an accepted one encrypts the first bytes of the payload
        field under the packet's nonce as the cipher reads it, signs, and moves the guard up to the packet's epoch. */
    method EncryptPacketB(pkt: PaymentPacket, payload: Bytes) returns (ok: bool)
      requires pkt.Valid() && prim.Sound()
      modifies this, pkt
      ensures ok <==> |payload| <= 62 && old(state) == ACTIVE && old(gpsTimeValid)
                      && StampOf(old(pkt.vals)).epoch > old(lastTxEpochMs)
      ensures Now() == Next(old(Now()), Encrypt(|payload|, StampOf(old(pkt.vals)))) && pkt.header == old(pkt.header)
      ensures pkt.Valid() && (!ok ==> pkt.vals == old(pkt.vals))
      ensures ok ==>
                var c := prim.cipher(payload, CipherNonce(StampOf(old(pkt.vals))), old(sessionKey));
                pkt.vals == Signed(prim, identity, pkt.header, old(pkt.vals), c + PayloadOf(old(pkt.vals))[|payload|..])
    {
      hide Table, Fits, WriteTo, NonceOf, CipherNonce, ZeroKey;
      PaymentFields(pkt.vals);
      if |payload| > 62 {
        return false;
      }
      if state != ACTIVE {
        return false;
      }
      if !gpsTimeValid {
        return false;
      }
      var stamp := Stamp(pkt.vals[SAT_ID_AT].v, pkt.vals[EPOCH_AT].v);
      if stamp.epoch <= lastTxEpochMs {
        return false;
      }
      var cipherText := prim.cipher(payload, CipherNonce(stamp), sessionKey);
      pkt.vals := Filled(pkt.vals, cipherText + PayloadOf(pkt.vals)[|payload|..]);
      pkt.vals := WithSignature(pkt.vals, prim.crypto.sign(identity, SignedRegion(pkt.header, pkt.vals)));
      lastTxEpochMs := stamp.epoch;
      used := used + [Use(stamp, sessionKey, agreed)];
      ok := true;
    }

    /** The plaintext build of the same call: only the length is checked, the field is zero-filled, and the signature
        covers the same region. */
    method EncryptPacketBPlaintext(pkt: PaymentPacket, payload: Bytes) returns (ok: bool)
      requires pkt.Valid() && prim.Sound()
      modifies pkt
      ensures ok <==> |payload| <= 62
      ensures pkt.Valid() && pkt.header == old(pkt.header) && (!ok ==> pkt.vals == old(pkt.vals))
      ensures ok ==> pkt.vals == Signed(prim, identity, pkt.header, old(pkt.vals), payload + seq(62 - |payload|, _ => 0))
    {
      hide Table, Fits, WriteTo;
      if |payload| > 62 {
        return false;
      }
      pkt.vals := Filled(pkt.vals, payload + seq(62 - |payload|, _ => 0));
      pkt.vals := WithSignature(pkt.vals, prim.crypto.sign(identity, SignedRegion(pkt.header, pkt.vals)));
      ok := true;
    }

    method IsSessionActive(currentTimeMs: U64) returns (ok: bool)
      modifies this
      ensures Now() == Next(old(Now()), CheckActive(currentTimeMs))
      ensures ok <==> old(state) == ACTIVE && !Expired(old(Now()), currentTimeMs)
      ensures ok <==> old(state) == ACTIVE == state
      ensures !ok && old(state) == ACTIVE ==> |sessionKey| == 32 && forall i :: 0 <= i < 32 ==> sessionKey[i] == 0
    {
      if state != ACTIVE {
        return false;
      }
      if (currentTimeMs - sessionStartTs) % TWO64 > sessionTtl * 1000 % TWO32 {
        WipeSession();
        return false;
      }
      ok := true;
    }

    method WipeSession()
      modifies this
      ensures Now() == Next(old(Now()), Wipe) && ephPriv == ZeroKey()
      ensures state == IDLE && |sessionKey| == 32 && forall i :: 0 <= i < 32 ==> sessionKey[i] == 0
    {
      sessionKey := ZeroKey();
      agreed := false;
      ephPriv := ZeroKey();
      state := IDLE;
    }

    method SetGpsTimeValid(valid: bool)
      modifies this
      ensures Now() == Next(old(Now()), SetGps(valid))
    {
      gpsTimeValid := valid;
    }
  }

  // ---- Which nonces can meet --------------------------------------------------------------------------------

  /** Accepted epochs rise strictly above the restored guard, and the guard stands at the last of them. */
  predicate Rising(restored: U64, g: Guard) {
    && (forall i, j :: 0 <= i < j < |g.used| ==> g.used[i].stamp.epoch < g.used[j].stamp.epoch)
    && (forall i :: 0 <= i < |g.used| ==> restored < g.used[i].stamp.epoch <= g.lastTxEpochMs)
    && g.lastTxEpochMs == if g.used == [] then restored else g.used[|g.used| - 1].stamp.epoch
  }

  lemma {:induction false} EpochsRise(restored: U64, calls: seq<Call>)
    ensures Rising(restored, Run(BootedWith(restored), calls))
    decreases |calls|
  {
    hide ZeroKey;
    if calls != [] {
      EpochsRise(restored, calls[..|calls| - 1]);
    }
  }

  lemma NonceIdentifies(a: Stamp, b: Stamp)
    ensures NonceOf(a) == NonceOf(b) <==> a == b
  {
    hide LE;
    Pow256Values();
    var x, y := NonceOf(a), NonceOf(b);
    assert x[..4] == LE(a.satId, 4) && x[4..] == LE(a.epoch, 8);
    assert y[..4] == LE(b.satId, 4) && y[4..] == LE(b.epoch, 8);
    LERoundTrip(a.satId, 4);
    LERoundTrip(b.satId, 4);
    LERoundTrip(a.epoch, 8);
    LERoundTrip(b.epoch, 8);
  }

  /** Within one boot, over any sequence of calls, across handshakes, wipes and lost GPS: the 12 bytes derived for
      two accepted payments differ. */
  lemma NoncesDistinct(restored: U64, calls: seq<Call>, i: nat, j: nat)
    requires i < j < |Run(BootedWith(restored), calls).used|
    ensures var used := Run(BootedWith(restored), calls).used;
            NonceOf(used[i].stamp) != NonceOf(used[j].stamp)
  {
    hide NonceOf, Run, BootedWith;
    EpochsRise(restored, calls);
    var used := Run(BootedWith(restored), calls).used;
    NonceIdentifies(used[i].stamp, used[j].stamp);
  }

  lemma {:induction false} LEPrefix(v: nat, n: nat, m: nat)
    requires m <= n
    ensures LE(v, n)[..m] == LE(v, m)
    decreases n
  {
    if m > 0 {
      LEPrefix(v / 0x100, n - 1, m - 1);
      assert LE(v, n)[1..][..m - 1] == LE(v, n)[..m][1..];
    }
  }

  /** n bytes do not see multiples of 256^n. */
  lemma {:induction false} LEPeriodic(v: nat, k: nat, n: nat)
    ensures LE(v + k * Pow256(n), n) == LE(v, n)
    decreases n
  {
    if n > 0 {
      hide Pow256;
      var m := k * Pow256(n - 1);
      Shifted(k, n - 1);
      Carry(v, m);
      LEPeriodic(v / 0x100, k, n - 1);
    }
  }

  lemma Shifted(k: nat, n: nat)
    ensures k * Pow256(n + 1) == 0x100 * (k * Pow256(n))
  {
    var p := Pow256(n);
    assert k * (0x100 * p) == 0x100 * (k * p);
  }

  lemma Carry(v: nat, m: nat)
    ensures (v + 0x100 * m) % 0x100 == v % 0x100 && (v + 0x100 * m) / 0x100 == v / 0x100 + m
  {
  }

  lemma LowWord(v: U64, w: U64)
    ensures LE(v, 4) == LE(w, 4) <==> v % TWO32 == w % TWO32
  {
    hide LE;
    Pow256Values();
    LEPeriodic(v % TWO32, v / TWO32, 4);
    LEPeriodic(w % TWO32, w / TWO32, 4);
    LERoundTrip(v % TWO32, 4);
    LERoundTrip(w % TWO32, 4);
  }

  /** The cipher sees the satellite and the low 32 bits of the epoch. */
  lemma CipherNonceIdentifies(a: Stamp, b: Stamp)
    ensures CipherNonce(a) == CipherNonce(b) <==> a.satId == b.satId && a.epoch % TWO32 == b.epoch % TWO32
  {
    hide LE;
    Pow256Values();
    LEPrefix(a.epoch, 8, 4);
    LEPrefix(b.epoch, 8, 4);
    LowWord(a.epoch, b.epoch);
    LERoundTrip(a.satId, 4);
    LERoundTrip(b.satId, 4);
    var x, y := CipherNonce(a), CipherNonce(b);
    assert x == LE(a.satId, 4) + LE(a.epoch, 8)[..4] && y == LE(b.satId, 4) + LE(b.epoch, 8)[..4];
    assert x[..4] == LE(a.satId, 4) && y[..4] == LE(b.satId, 4) && x[4..] == LE(a.epoch, 4) && y[4..] == LE(b.epoch, 4);
  }

  /** What determines the key stream of a payment. */
  function Stream(u: Use): (Bytes, Bytes) {
    (u.key, CipherNonce(u.stamp))
  }

  /** Over every call sequence of a boot, two accepted payments share the cipher's nonce exactly when their satellite
      is the same and their epochs lie a multiple of 2^32 ms apart, and its key stream exactly when they were also
      made under the same session key. */
  lemma StreamSharedExactlyWhen(restored: U64, calls: seq<Call>, i: nat, j: nat)
    requires i < j < |Run(BootedWith(restored), calls).used|
    ensures var u, v := Run(BootedWith(restored), calls).used[i], Run(BootedWith(restored), calls).used[j];
            && u.stamp.epoch < v.stamp.epoch
            && (CipherNonce(u.stamp) == CipherNonce(v.stamp) <==>
                u.stamp.satId == v.stamp.satId && (v.stamp.epoch - u.stamp.epoch) % TWO32 == 0)
            && (Stream(u) == Stream(v) <==>
                u.key == v.key && u.stamp.satId == v.stamp.satId && (v.stamp.epoch - u.stamp.epoch) % TWO32 == 0)
  {
    hide CipherNonce, Run, BootedWith;
    EpochsRise(restored, calls);
    var u, v := Run(BootedWith(restored), calls).used[i], Run(BootedWith(restored), calls).used[j];
    CipherNonceIdentifies(u.stamp, v.stamp);
  }

  /** So no key stream is used twice while the accepted epochs of the boot span less than 2^32 ms, about 49.7 days. */
  lemma StreamsDistinct(restored: U64, calls: seq<Call>, i: nat, j: nat)
    requires i < j < |Run(BootedWith(restored), calls).used|
    requires var used := Run(BootedWith(restored), calls).used;
             used[|used| - 1].stamp.epoch - used[0].stamp.epoch < TWO32
    ensures var used := Run(BootedWith(restored), calls).used;
            CipherNonce(used[i].stamp) != CipherNonce(used[j].stamp) && Stream(used[i]) != Stream(used[j])
  {
    hide CipherNonce, Run, BootedWith;
    EpochsRise(restored, calls);
    var used := Run(BootedWith(restored), calls).used;
    StreamSharedExactlyWhen(restored, calls, i, j);
    assert used[0].stamp.epoch <= used[i].stamp.epoch && used[j].stamp.epoch <= used[|used| - 1].stamp.epoch;
  }

  lemma RunNothing(g: Guard)
    ensures Run(g, []) == g
  {
  }

  lemma RunSnoc(g: Guard, calls: seq<Call>, c: Call)
    ensures Run(g, calls + [c]) == Next(Run(g, calls), c)
  {
    assert (calls + [c])[..|calls|] == calls;
  }

  /** The calls that open a session under a given key and send one payment. */
  function SendOne(s: Stamp, key: Bytes): seq<Call> {
    ([] + [SetGps(true)] + [Respond(Some(key), [])]) + [Encrypt(62, s)]
  }

  lemma SendOneAccepted(restored: U64, s: Stamp, key: Bytes)
    requires s.epoch > restored
    ensures var g := Run(BootedWith(restored), SendOne(s, key));
            g.used == [Use(s, key, true)] && g.agreed && g.state == ACTIVE && g.gpsTimeValid && g.sessionKey == key
            && g.lastTxEpochMs == s.epoch
  {
    hide Run, ZeroKey;
    var g := BootedWith(restored);
    RunNothing(g);
    RunSnoc(g, [], SetGps(true));
    RunSnoc(g, [] + [SetGps(true)], Respond(Some(key), []));
    RunSnoc(g, [] + [SetGps(true)] + [Respond(Some(key), [])], Encrypt(62, s));
  }

  /** The span matters: one session accepts a second payment exactly 2^32 ms after the first, because its lifetime is
      not consulted; the 12 derived bytes differ, the key stream is the same. */
  lemma StreamReused(satId: U32, epoch: U64, key: Bytes)
    requires 0 < epoch && epoch + TWO32 < TWO64
    ensures var a, b := Stamp(satId, epoch), Stamp(satId, epoch + TWO32);
            && Run(BootedWith(0), SendOne(a, key) + [Encrypt(62, b)]).used == [Use(a, key, true), Use(b, key, true)]
            && NonceOf(a) != NonceOf(b) && Stream(Use(a, key, true)) == Stream(Use(b, key, true))
  {
    hide Run, BootedWith, NonceOf, CipherNonce, SendOne;
    var a, b := Stamp(satId, epoch), Stamp(satId, epoch + TWO32);
    SendOneAccepted(0, a, key);
    RunSnoc(BootedWith(0), SendOne(a, key), Encrypt(62, b));
    NonceIdentifies(a, b);
    CipherNonceIdentifies(a, b);
  }

  predicate Repeats(before: seq<Use>, after: seq<Use>) {
    exists i, j :: 0 <= i < |before| && 0 <= j < |after| && before[i].stamp == after[j].stamp
  }

  /** Across a reboot: no stamp accepted before is ever accepted again if and only if the restored guard is at least
      the last epoch accepted before. The code restores 0. */
  lemma RebootSafeExactlyWhen(first: U64, earlier: seq<Call>, restored: U64)
    ensures var was := Run(BootedWith(first), earlier);
            (forall later: seq<Call> :: !Repeats(was.used, Run(BootedWith(restored), later).used))
            <==> was.used == [] || restored >= was.lastTxEpochMs
  {
    hide Run, BootedWith, SendOne;
    var was := Run(BootedWith(first), earlier);
    EpochsRise(first, earlier);
    if was.used == [] || restored >= was.lastTxEpochMs {
      forall later: seq<Call> ensures !Repeats(was.used, Run(BootedWith(restored), later).used) {
        EpochsRise(restored, later);
      }
    } else {
      var last := was.used[|was.used| - 1].stamp;
      SendOneAccepted(restored, last, []);
      assert Run(BootedWith(restored), SendOne(last, [])).used[0].stamp == last;
      assert Repeats(was.used, Run(BootedWith(restored), SendOne(last, [])).used);
    }
  }

  /** With the guard restored to 0, every boot that sent something can be followed by one that repeats it. */
  lemma RebootForgets(first: U64, earlier: seq<Call>)
    requires Run(BootedWith(first), earlier).used != []
    ensures exists later: seq<Call> ::
              Repeats(Run(BootedWith(first), earlier).used, Run(BootedWith(0), later).used)
  {
    hide Run, BootedWith, Repeats;
    EpochsRise(first, earlier);
    RebootSafeExactlyWhen(first, earlier, 0);
  }

  // ---- When a payment is accepted, from the calls before it ------------------------------------------------------

  /** The last report about GPS time said it is valid. */
  predicate GpsValid(calls: seq<Call>) {
    exists k :: 0 <= k < |calls| && calls[k] == SetGps(true) && forall j :: k < j < |calls| ==> !calls[j].SetGps?
  }

  /** At this time the lifetime of the last handshake, in whole seconds from its start, is not used up; before any
      handshake both are 0. A time before the start counts as one 2^64 ms later. */
  predicate InTime(calls: seq<Call>, now: U64)
    decreases |calls|
  {
    if calls == [] then now == 0
    else
      var c := calls[|calls| - 1];
      if c.Prepare? then c.now <= now <= c.now + 1000 * c.ttl || now + TWO64 <= c.now + 1000 * c.ttl
      else InTime(calls[..|calls| - 1], now)
  }

  /** Call r ended a key agreement, and nothing since has closed the session: no wipe, no new handshake, and no check
      outside the lifetime of the handshake. */
  predicate OpenSince(calls: seq<Call>, r: nat) {
    && r < |calls| && calls[r].Respond? && calls[r].shared.Some?
    && forall k :: r < k < |calls| ==>
         !calls[k].Wipe? && !calls[k].Prepare? && (calls[k].CheckActive? ==> InTime(calls[..k], calls[k].now))
  }

  predicate SessionOpen(calls: seq<Call>) {
    exists r :: 0 <= r < |calls| && OpenSince(calls, r)
  }

  /** What the last key agreement left in the key buffer. */
  function LastKey(calls: seq<Call>): Bytes {
    if calls == [] then []
    else
      var c := calls[|calls| - 1];
      if c.Respond? then (if c.shared.Some? then c.shared.value else c.junk) else LastKey(calls[..|calls| - 1])
  }

  lemma LastKeySnoc(calls: seq<Call>, c: Call)
    ensures LastKey(calls + [c])
            == if c.Respond? then (if c.shared.Some? then c.shared.value else c.junk) else LastKey(calls)
  {
    assert (calls + [c])[..|calls|] == calls;
  }

  lemma GpsValidSnoc(calls: seq<Call>, c: Call)
    ensures GpsValid(calls + [c]) <==> if c.SetGps? then c.valid else GpsValid(calls)
  {
    var all := calls + [c];
    if GpsValid(all) {
      var k :| 0 <= k < |all| && all[k] == SetGps(true) && forall j :: k < j < |all| ==> !all[j].SetGps?;
      if k < |calls| {
        assert !all[|calls|].SetGps? && calls[k] == all[k];
        assert forall j :: k < j < |calls| ==> all[j] == calls[j];
      }
    }
    if !c.SetGps? && GpsValid(calls) {
      var k :| 0 <= k < |calls| && calls[k] == SetGps(true) && forall j :: k < j < |calls| ==> !calls[j].SetGps?;
      assert all[k] == SetGps(true) && forall j :: k < j < |all| ==> !all[j].SetGps?;
    }
    if c == SetGps(true) {
      assert all[|calls|] == SetGps(true);
    }
  }

  lemma OpenSinceSnoc(calls: seq<Call>, c: Call, r: nat)
    requires r < |calls|
    ensures OpenSince(calls + [c], r) <==>
            OpenSince(calls, r) && !c.Wipe? && !c.Prepare? && (c.CheckActive? ==> InTime(calls, c.now))
  {
    hide InTime;
    var all := calls + [c];
    assert forall k :: 0 <= k < |calls| ==> all[k] == calls[k] && all[..k] == calls[..k];
    assert all[|calls|] == c && all[..|calls|] == calls;
  }

  lemma SessionOpenSnoc(calls: seq<Call>, c: Call)
    ensures SessionOpen(calls + [c]) <==>
            (c.Respond? && c.shared.Some?)
            || (SessionOpen(calls) && !c.Wipe? && !c.Prepare? && (c.CheckActive? ==> InTime(calls, c.now)))
  {
    var all := calls + [c];
    hide InTime;
    if SessionOpen(all) {
      var r :| 0 <= r < |all| && OpenSince(all, r);
      if r < |calls| {
        OpenSinceSnoc(calls, c, r);
      }
    }
    if c.Respond? && c.shared.Some? {
      assert OpenSince(all, |calls|);
    }
    if SessionOpen(calls) {
      var r :| 0 <= r < |calls| && OpenSince(calls, r);
      OpenSinceSnoc(calls, c, r);
    }
  }

  lemma InTimeSnoc(calls: seq<Call>, c: Call, now: U64)
    ensures InTime(calls + [c], now) <==>
            if c.Prepare? then c.now <= now <= c.now + 1000 * c.ttl || now + TWO64 <= c.now + 1000 * c.ttl
            else InTime(calls, now)
  {
    assert (calls + [c])[..|calls|] == calls;
  }

  /** No allowance reaches 32 bits, and a session ends exactly with it. */
  lemma {:induction false} ExpiryIsHistory(restored: U64, calls: seq<Call>, now: U64)
    ensures var g := Run(BootedWith(restored), calls); g.ttl < TWO16 && (Expired(g, now) <==> !InTime(calls, now))
    decreases |calls|
  {
    hide ZeroKey, InTime, Admits;
    if calls == [] {
      assert InTime([], now) <==> now == 0 by {
        InTimeNothing(now);
      }
    } else {
      var init, c := calls[..|calls| - 1], calls[|calls| - 1];
      assert calls == init + [c];
      ExpiryIsHistory(restored, init, now);
      InTimeSnoc(init, c, now);
      if c.Prepare? {
        ElapsedIn(c.now, now, 1000 * c.ttl);
      }
    }
  }

  lemma InTimeNothing(now: U64)
    ensures InTime([], now) <==> now == 0
  {
  }

  lemma ElapsedIn(start: U64, now: U64, allowance: nat)
    ensures (now - start) % TWO64 == if start <= now then now - start else now - start + TWO64
  {
  }

  lemma {:induction false} GateIsHistory(restored: U64, calls: seq<Call>)
    ensures var g := Run(BootedWith(restored), calls);
            && (g.state == ACTIVE <==> SessionOpen(calls)) && (g.gpsTimeValid <==> GpsValid(calls))
            && (SessionOpen(calls) ==> g.sessionKey == LastKey(calls))
    decreases |calls|
  {
    hide ZeroKey, InTime, Admits, Expired, SessionOpen, GpsValid, LastKey;
    if calls == [] {
      NothingOpen();
    } else {
      var init, c := calls[..|calls| - 1], calls[|calls| - 1];
      assert calls == init + [c];
      GateIsHistory(restored, init);
      GpsValidSnoc(init, c);
      SessionOpenSnoc(init, c);
      LastKeySnoc(init, c);
      if c.CheckActive? {
        ExpiryIsHistory(restored, init, c.now);
      }
    }
  }

  lemma NothingOpen()
    ensures !SessionOpen([]) && !GpsValid([])
  {
  }

  /** What a payment must find: room, valid GPS time, an open session, and an epoch above the restored guard and above
      every epoch accepted before. */
  predicate MayPay(restored: U64, calls: seq<Call>, used: seq<Use>, len: nat, epoch: U64) {
    && len <= 62 && GpsValid(calls) && SessionOpen(calls)
    && epoch > restored && forall i :: 0 <= i < |used| ==> epoch > used[i].stamp.epoch
  }

  /** Over every call sequence of a boot, a payment is accepted if and only if the calls before it say so; a rejected
      one changes nothing at all. */
  lemma AcceptedExactlyWhen(restored: U64, calls: seq<Call>, len: nat, s: Stamp)
    ensures var g, h := Run(BootedWith(restored), calls), Run(BootedWith(restored), calls + [Encrypt(len, s)]);
            if MayPay(restored, calls, g.used, len, s.epoch)
            then |h.used| == |g.used| + 1 && g.used < h.used && h.used[|g.used|].stamp == s
                 && h.used[|g.used|].key == LastKey(calls)
            else h == g
  {
    hide Run, BootedWith, GpsValid, SessionOpen, LastKey;
    EpochsRise(restored, calls);
    GateIsHistory(restored, calls);
    RunSnoc(BootedWith(restored), calls, Encrypt(len, s));
    var g := Run(BootedWith(restored), calls);
    if g.used != [] {
      assert g.used[|g.used| - 1].stamp.epoch == g.lastTxEpochMs;
    }
  }

  /** A session that is open is reported as over exactly when the time is outside its lifetime: one of ttl seconds is
      active up to and including its start plus 1000 * ttl ms. */
  lemma ActiveExactlyWhile(restored: U64, before: seq<Call>, ttl: U16, start: U64, key: Bytes, now: U64)
    requires start + 1000 * ttl < TWO64 && start <= now
    ensures var g := Run(BootedWith(restored), before + [Prepare(ttl, start)] + [Respond(Some(key), [])]);
            g.state == ACTIVE && (Next(g, CheckActive(now)).state == ACTIVE <==> now <= start + 1000 * ttl)
  {
    hide Run, BootedWith, InTime, SessionOpen, Expired, ZeroKey;
    var c := before + [Prepare(ttl, start)];
    InTimeSnoc(before, Prepare(ttl, start), now);
    InTimeSnoc(c, Respond(Some(key), []), now);
    ExpiryIsHistory(restored, c + [Respond(Some(key), [])], now);
    RunSnoc(BootedWith(restored), c, Respond(Some(key), []));
  }

  // ---- Keys that were never agreed -----------------------------------------------------------------------------

  /** The last attempt at a key agreement failed. */
  predicate LastAgreementFailed(calls: seq<Call>) {
    calls != []
    && var c := calls[|calls| - 1];
       if c.Respond? then c.shared.None? else LastAgreementFailed(calls[..|calls| - 1])
  }

  /** Call n is a payment that is accepted. */
  predicate Accepted(boot: Guard, calls: seq<Call>, n: nat)
    requires n < |calls|
  {
    calls[n].Encrypt? && Admits(Run(boot, calls[..n]), calls[n].len, calls[n].stamp.epoch)
  }

  predicate AllAgreed(used: seq<Use>) {
    forall i :: 0 <= i < |used| ==> used[i].agreed
  }

  /** No payment is accepted while the last agreement attempt stands failed. */
  predicate NoneAfterFailure(boot: Guard, calls: seq<Call>) {
    forall n :: 0 <= n < |calls| && Accepted(boot, calls, n) ==> !LastAgreementFailed(calls[..n])
  }

  lemma {:induction false} ActiveIsAgreed(restored: U64, calls: seq<Call>)
    ensures var g := Run(BootedWith(restored), calls);
            g.state == ACTIVE ==> (g.agreed <==> !LastAgreementFailed(calls))
    decreases |calls|
  {
    hide ZeroKey;
    if calls != [] {
      ActiveIsAgreed(restored, calls[..|calls| - 1]);
    }
  }

  lemma NoneAfterFailureSnoc(boot: Guard, calls: seq<Call>)
    requires calls != []
    ensures var init := calls[..|calls| - 1];
            NoneAfterFailure(boot, calls) <==>
            NoneAfterFailure(boot, init) && (Accepted(boot, calls, |init|) ==> !LastAgreementFailed(init))
  {
    hide LastAgreementFailed, Run, Admits;
    var init := calls[..|calls| - 1];
    forall n | 0 <= n < |init|
      ensures calls[..n] == init[..n] && (Accepted(boot, calls, n) <==> Accepted(boot, init, n))
    {
      assert calls[..n] == init[..n];
    }
    assert calls[..|init|] == init;
    if NoneAfterFailure(boot, calls) {
      forall n | 0 <= n < |init| && Accepted(boot, init, n) ensures !LastAgreementFailed(init[..n]) {
        assert Accepted(boot, calls, n);
      }
    }
  }

  /** A failed key agreement leaves an active session active. Over every call sequence of a boot, all accepted payments
      were made under an agreed key if and only if none is accepted between a failed agreement and the next successful
      one. */
  lemma {:induction false} AgreedExactlyWhen(restored: U64, calls: seq<Call>)
    ensures AllAgreed(Run(BootedWith(restored), calls).used) <==> NoneAfterFailure(BootedWith(restored), calls)
    decreases |calls|
  {
    hide ZeroKey, LastAgreementFailed, NoneAfterFailure, BootedWith;
    var boot := BootedWith(restored);
    if calls == [] {
      NothingAccepted(restored);
    } else {
      var init := calls[..|calls| - 1];
      AgreedExactlyWhen(restored, init);
      ActiveIsAgreed(restored, init);
      NoneAfterFailureSnoc(boot, calls);
      UsedGrows(boot, calls);
    }
  }

  lemma NothingAccepted(restored: U64)
    ensures NoneAfterFailure(BootedWith(restored), []) && Run(BootedWith(restored), []).used == []
  {
  }

  lemma UsedGrows(boot: Guard, calls: seq<Call>)
    requires calls != []
    ensures var init := calls[..|calls| - 1];
            var g := Run(boot, init);
            AllAgreed(Run(boot, calls).used) <==> AllAgreed(g.used) && (Accepted(boot, calls, |init|) ==> g.agreed)
    ensures var init := calls[..|calls| - 1]; Accepted(boot, calls, |init|) ==> Run(boot, init).state == ACTIVE
  {
    hide ZeroKey, Run;
    var init, c := calls[..|calls| - 1], calls[|calls| - 1];
    var g := Run(boot, init);
    assert calls == init + [c];
    RunSnoc(boot, init, c);
    var u := Run(boot, calls).used;
    if Accepted(boot, calls, |init|) {
      assert u == g.used + [Use(c.stamp, g.sessionKey, g.agreed)];
      if AllAgreed(u) {
        assert forall i :: 0 <= i < |g.used| ==> g.used[i] == u[i];
        assert u[|g.used|].agreed;
      }
    } else {
      assert u == g.used;
    }
  }

  /** Such a payment exists: after a failed agreement in an active session the next one goes out under whatever the
      failed call left in the key buffer. */
  lemma FailedAgreementKept(key: Bytes, junk: Bytes, s: Stamp)
    requires s.epoch > 0
    ensures var g := Run(BootedWith(0), [] + [SetGps(true)] + [Respond(Some(key), [])] + [Respond(None, junk)] + [Encrypt(62, s)]);
            g.state == ACTIVE && g.used == [Use(s, junk, false)]
  {
    hide Run, ZeroKey;
    var g := BootedWith(0);
    RunNothing(g);
    RunSnoc(g, [], SetGps(true));
    RunSnoc(g, [] + [SetGps(true)], Respond(Some(key), []));
    RunSnoc(g, [] + [SetGps(true)] + [Respond(Some(key), [])], Respond(None, junk));
    RunSnoc(g, [] + [SetGps(true)] + [Respond(Some(key), [])] + [Respond(None, junk)], Encrypt(62, s));
  }

  // ---- What was signed is what gets verified ------------------------------------------------------------------

  /** The frame of a signed packet carries, 72 bytes from its end, a signature that verifies over everything before
      it: the region the ingest handler hands to verification. */
  lemma SignedFrameVerifies(prim: Primitives, identity: Bytes, header: Bytes, vals: seq<Val>, payload: Bytes)
    requires prim.Sound() && Fits(Table(PacketB), vals) && |payload| == 62
    ensures var r := Signed(prim, identity, header, vals, payload);
            var frame := header + WriteBody(Table(PacketB), r);
            && |frame| == |header| + 178 && r[SIGNATURE_AT].Blob?
            && prim.crypto.verify(prim.crypto.pub(identity), frame[..|frame| - 72], r[SIGNATURE_AT].s)
  {
    var filled := Filled(vals, payload);
    PaymentFields(vals);
    PaymentFields(filled);
    var r := Signed(prim, identity, header, vals, payload);
    SignatureOffset();
    hide Table, WriteTo, Fits, Offset;
    WriteToAgree(Table(PacketB), filled, r, SIGNATURE_AT);
    WriteToPrefix(Table(PacketB), r, SIGNATURE_AT, 12);
    var body := WriteBody(Table(PacketB), r);
    var frame := header + body;
    assert frame[..|frame| - 72] == header + body[..106];
  }

  /** The handshake signature verifies over the first 48 bytes of the frame, which are all bytes before it in the
      CCSDS tier and all but the last 8 key bytes in the SNLP tier. */
  lemma HandshakeScope(prim: Primitives, identity: Bytes, snlp: bool, sync: Bytes, pad: Bytes, ttl: U16, timestamp: U64,
                       ephPubKey: Bytes)
    requires prim.Sound() && |sync| == |pad| == (if snlp then 4 else 0) && |ephPubKey| == 32
    ensures var f := SignedHandshake(prim, identity, snlp, sync, pad, ttl, timestamp, ephPubKey);
            && |f| == HeaderLen(snlp) + 106
            && prim.crypto.verify(prim.crypto.pub(identity), f[..48], f[|f| - 64..])
            && (f[..48] == f[..|f| - 64] <==> !snlp)
  {
    hide LE, HandshakeHeader;
    var h := HandshakeHeader(snlp);
    var blank := HandshakeFrame(sync, h, pad, ttl, timestamp, ephPubKey, ZeroSignature());
    var sig := prim.crypto.sign(identity, blank[..48]);
    FirstBytes(sync, h, pad, ttl, timestamp, ephPubKey, sig, ZeroSignature());
    var f := SignedHandshake(prim, identity, snlp, sync, pad, ttl, timestamp, ephPubKey);
    assert f[|f| - 64..] == sig;
  }

  /** A command by APID 178, unsegmented, sequence count 0. */
  predicate IsHandshakeHeader(h: Header) {
    h.Version() == 0 && h.PacketType() == 1 && h.SecHeaderFlag() == 1 && h.Apid() == 178 && h.SeqFlags() == 3
    && h.SeqCount() == 0
  }

  lemma HandshakeParts(sync: Bytes, primary: Bytes, pad: Bytes, ttl: U16, timestamp: U64, ephPubKey: Bytes, s: Bytes)
    requires |primary| == 6
    ensures var f := HandshakeFrame(sync, primary, pad, ttl, timestamp, ephPubKey, s);
            var n := |sync| + 6;
            && |f| == n + |pad| + 10 + |ephPubKey| + |s| && f[..|sync|] == sync && f[|sync|..n] == primary
            && f[n..n + |pad|] == pad && f[n + |pad|..] == LE(ttl, 2) + LE(timestamp, 8) + ephPubKey + s
  {
    hide LE;
    var rest := LE(ttl, 2) + LE(timestamp, 8) + ephPubKey + s;
    assert HandshakeFrame(sync, primary, pad, ttl, timestamp, ephPubKey, s) == sync + primary + pad + rest;
  }

  /** The handshake packet in either tier, read with the fields of a PacketH body: lifetime, start and public key as
      given, then the signature of the first 48 bytes. */
  lemma HandshakeFields(prim: Primitives, identity: Bytes, snlp: bool, sync: Bytes, pad: Bytes, ttl: U16, timestamp: U64,
                        ephPubKey: Bytes)
    requires prim.Sound() && |sync| == |pad| == (if snlp then 4 else 0) && |ephPubKey| == 32
    ensures var f := SignedHandshake(prim, identity, snlp, sync, pad, ttl, timestamp, ephPubKey);
            && |f| == HeaderLen(snlp) + 106 && f[..|sync|] == sync && f[|sync| + 6..HeaderLen(snlp)] == pad
            && IsHandshakeHeader(ReadWords(f[|sync|..|sync| + 6]))
            && ReadWords(f[|sync|..|sync| + 6]).DataFieldLength() == |f|
            && ReadBody(Table(PacketH), f[HeaderLen(snlp)..])
               == Some([Num(ttl), Num(timestamp), Blob(ephPubKey), Blob(prim.crypto.sign(identity, f[..48]))])
  {
    var h := HandshakeHeader(snlp);
    var blank := HandshakeFrame(sync, h, pad, ttl, timestamp, ephPubKey, ZeroSignature());
    var sig := prim.crypto.sign(identity, blank[..48]);
    HandshakeWords(snlp);
    hide LE, ReadBody, Table, HandshakeHeader, HandshakeFrame, ReadWords, IsHandshakeHeader;
    FirstBytes(sync, h, pad, ttl, timestamp, ephPubKey, sig, ZeroSignature());
    HandshakeBody(ttl, timestamp, ephPubKey, sig);
    HandshakeParts(sync, h, pad, ttl, timestamp, ephPubKey, sig);
  }

  lemma HandshakeWords(snlp: bool)
    ensures IsHandshakeHeader(ReadWords(HandshakeHeader(snlp)))
    ensures ReadWords(HandshakeHeader(snlp)).DataFieldLength() == HeaderLen(snlp) + 106
  {
    var s := HandshakeHeader(snlp);
    hide BEVal;
    Two(s[..2]);
    Two(s[2..4]);
    Two(s[4..]);
  }

  lemma HandshakeBody(ttl: U16, timestamp: U64, ephPubKey: Bytes, signature: Bytes)
    requires |ephPubKey| == 32 && |signature| == 64
    ensures ReadBody(Table(PacketH), LE(ttl, 2) + LE(timestamp, 8) + ephPubKey + signature)
            == Some([Num(ttl), Num(timestamp), Blob(ephPubKey), Blob(signature)])
  {
    Pow256Values();
    hide ReadBody, LE, Pow256;
    var l, vals := Table(PacketH), [Num(ttl), Num(timestamp), Blob(ephPubKey), Blob(signature)];
    assert Fits(l, vals);
    ParsePrinted(l, vals, []);
    assert WriteTo(l, vals, 1) == LE(ttl, 2);
    assert WriteTo(l, vals, 2) == LE(ttl, 2) + LE(timestamp, 8);
    assert WriteTo(l, vals, 3) == LE(ttl, 2) + LE(timestamp, 8) + ephPubKey;
    assert WriteTo(l, vals, 4) == LE(ttl, 2) + LE(timestamp, 8) + ephPubKey + signature;
    assert WriteBody(l, vals) + [] == WriteTo(l, vals, 4);
  }

  /** Filling and signing a payment touches the payload and the signature and no other field. */
  lemma SignedKeeps(prim: Primitives, identity: Bytes, header: Bytes, vals: seq<Val>, payload: Bytes)
    requires prim.Sound() && Fits(Table(PacketB), vals) && |payload| == 62
    ensures var r := Signed(prim, identity, header, vals, payload);
            && |r| == |vals| == 12 && r[5] == Blob(payload)
            && forall k :: 0 <= k < 12 && k != 5 && k != 9 ==> r[k] == vals[k]
  {
    PaymentFields(vals);
    hide Table, Fits, SignedRegion;
  }

  lemma CcsdsHandshakeTooShort(f: Bytes)
    requires |f| == 112 && f[..6] == HandshakeHeader(false)
    ensures Parse(f) == None
  {
    hide ParseBody, BEVal;
    var h := f[..6];
    assert f[..4][0] == h[0] != SYNC[0];
    assert h[4..] == [0x00, 111];
    Two(h[4..]);
  }

  lemma SnlpHandshakeTooShort(f: Bytes)
    requires |f| == 120 && f[4..10] == HandshakeHeader(true)
    ensures Parse(f) == None
  {
    hide ParseBody, BEVal;
    var h := f[4..10];
    assert f[4] == h[0] && f[5] == h[1];
    assert h[4..] == [0x00, 119] && f[..6][4..] == [0x18, 0xB2];
    Two(h[4..]);
    Two(f[..6][4..]);
  }

  /** The length written is 6 or 14 too large, so the gateway's parser refuses every handshake packet, whatever the
      caller put into sync word and pad. */
  lemma HandshakeUnparsed(prim: Primitives, identity: Bytes, snlp: bool, sync: Bytes, pad: Bytes, ttl: U16, timestamp: U64,
                          ephPubKey: Bytes)
    requires prim.Sound() && |sync| == |pad| == (if snlp then 4 else 0) && |ephPubKey| == 32
    ensures Parse(SignedHandshake(prim, identity, snlp, sync, pad, ttl, timestamp, ephPubKey)) == None
  {
    HandshakeScope(prim, identity, snlp, sync, pad, ttl, timestamp, ephPubKey);
    hide LE, Parse, HandshakeHeader, HandshakeFrame;
    var h := HandshakeHeader(snlp);
    var f := SignedHandshake(prim, identity, snlp, sync, pad, ttl, timestamp, ephPubKey);
    var blank := HandshakeFrame(sync, h, pad, ttl, timestamp, ephPubKey, ZeroSignature());
    FirstBytes(sync, h, pad, ttl, timestamp, ephPubKey, ZeroSignature(), ZeroSignature());
    HeaderPlace(sync, h, pad, ttl, timestamp, ephPubKey, prim.crypto.sign(identity, blank[..48]));
    if snlp {
      SnlpHandshakeTooShort(f);
    } else {
      assert f[0..6] == f[..6];
      CcsdsHandshakeTooShort(f);
    }
  }

  lemma HeaderPlace(sync: Bytes, primary: Bytes, pad: Bytes, ttl: U16, timestamp: U64, ephPubKey: Bytes, s: Bytes)
    requires |primary| == 6
    ensures var f := HandshakeFrame(sync, primary, pad, ttl, timestamp, ephPubKey, s);
            |f| >= |sync| + 6 && f[|sync|..|sync| + 6] == primary
  {
    hide LE;
    var rest := pad + LE(ttl, 2) + LE(timestamp, 8) + ephPubKey + s;
    assert HandshakeFrame(sync, primary, pad, ttl, timestamp, ephPubKey, s) == sync + (primary + rest);
  }

  lemma SignatureOffset()
    ensures Offset(Table(PacketB), SIGNATURE_AT) == 106 && Width(Table(PacketB)) == 178 && |Table(PacketB)| == 12
  {
    TablesFill(PacketB);
  }
}
