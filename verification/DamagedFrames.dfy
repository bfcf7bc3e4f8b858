/** What ingest does with an ACK or D frame in which one byte was corrupted. The checksum catches every byte it covers,
    but only if the frame is still read as what it was: a corrupted length or magic byte makes the parser read it as
    another packet, with that packet's own gate. */
module DamagedFrames {
  import opened Words
  import opened Layout
  import opened Frames
  import opened Builders
  import opened Crc32
  import opened Ingest

  const LENGTH_LOW: nat := 9
  const MAGIC_AT: nat := 14

  /** The length byte turned into that of a heartbeat, an invoice or a handshake, none of which is checked, or into that
      of a receipt whose signature verifies. */
  predicate Relabelled(env: Env, g: Bytes, i: nat)
    requires |g| == ACK_SIZE && i < ACK_SIZE
  {
    i == LENGTH_LOW
    && (g[i] in {33, 65, 105} || (g[i] == 97 && Verified(env, SELLER_SAT_ID, g[38..64], g[40..104])))
  }

  /** The corruptions of an ACK that get through: a new label, or the magic byte of a delivery whose checksum, at its own
      place, happens to agree. */
  predicate AckGetsThrough(env: Env, g: Bytes, i: nat)
    requires |g| == ACK_SIZE && i < ACK_SIZE
  {
    Relabelled(env, g, i) || (i == MAGIC_AT && g[i] == MAGIC_D && ValidFrame(g, ACK_SIZE - D_CRC_FROM_END))
  }

  /** The same for a delivery, whose tail is not covered at all. */
  predicate DeliveryGetsThrough(env: Env, g: Bytes, i: nat)
    requires |g| == D_SIZE && i < D_SIZE
  {
    Relabelled(env, g, i) || (i == MAGIC_AT && g[i] == MAGIC_ACK && ValidFrame(g, D_SIZE - ACK_CRC_FROM_END))
    || i >= D_SIZE - 6
  }

  // ---- Reading a 136-byte frame ---------------------------------------------------------------------------------

  function LengthIn(g: Bytes): nat
    requires |g| == ACK_SIZE
  {
    (0x100 * (g[8] as int) + g[9] + 1) % TWO16
  }

  function HeaderIn(g: Bytes): Header
    requires |g| == ACK_SIZE
  {
    ReadWords(g[4..10])
  }

  lemma HeaderInIs(g: Bytes)
    requires |g| == ACK_SIZE
    ensures HeaderIn(g).DataFieldLength() == LengthIn(g) && HeaderIn(g).Version() == g[4] / 0x20
  {
    hide BEVal;
    var s := g[4..10];
    assert s[..2] == [g[4], g[5]] && s[4..] == [g[8], g[9]];
    Two(s[..2]);
    Two(s[4..]);
    assert (0x100 * (g[4] as int) + g[5]) / 0x2000 == g[4] / 0x20;
  }

  /** With sync word and pad in place, the body is as long as the length field says. */
  lemma ParseSnlp(g: Bytes)
    requires |g| == ACK_SIZE && g[..4] == SYNC && g[10..14] == PAD4
    ensures Parse(g) ==
            if 14 + LengthIn(g) > ACK_SIZE then None
            else match ParseBody(g[14..14 + LengthIn(g)])
                 case Some(b) => Some(Packet(true, HeaderIn(g), b))
                 case None => None
  {
    hide ParseBody, ReadWords;
    HeaderInIs(g);
  }

  lemma NoPadNoParse(g: Bytes)
    requires |g| == ACK_SIZE && g[..4] == SYNC && g[10..14] != PAD4
    ensures Parse(g) == None
  {
    hide ParseBody, ReadWords;
  }

  /** Without the sync word the identification field is taken for a CCSDS length, which is too long. */
  lemma NoSyncNoParse(g: Bytes)
    requires |g| == ACK_SIZE && g[..4] != SYNC && g[4] in {0x18, 0x08} && g[5] == 0x65
    ensures Parse(g) == None
  {
    hide ParseBody, BEVal;
    var s := g[..6];
    assert s[4..] == [g[4], 0x65];
    Two(s[4..]);
  }

  // ---- Bodies without a required byte -------------------------------------------------------------------------------

  predicate Unmagical(k: Kind) {
    forall n :: 0 <= n < |Table(k)| ==> !Table(k)[n].Magic?
  }

  lemma Unmagicals()
    ensures Unmagical(Heartbeat) && Unmagical(PacketA) && Unmagical(PacketH) && Unmagical(PacketC)
  {
  }

  lemma UnmagicalReads(k: Kind, s: Bytes)
    requires Unmagical(k) && |s| == BodyLen(k)
    ensures ReadBody(Table(k), s).Some?
  {
    TablesFill(k);
    var l := Table(k);
    hide Table, BodyLen;
    forall n | 0 <= n < |l| ensures ReadField(l[n], Slice(l, s, n)).Some? {
      assert !l[n].Magic?;
    }
  }

  lemma DeliveryReads(s: Bytes)
    requires |s| == 122 && s[0] == MAGIC_D
    ensures ReadBody(Table(PacketD), s).Some?
  {
    TablesFill(PacketD);
    DeliveryMagic();
    var l := Table(PacketD);
    hide Table, BodyLen;
    forall n | 0 <= n < |l| ensures ReadField(l[n], Slice(l, s, n)).Some? {
      if n == 0 {
        assert Slice(l, s, 0) == [s[0]];
      }
    }
  }

  lemma DeliveryMagic()
    ensures Table(PacketD)[0] == Magic(MAGIC_D)
    ensures forall n :: 0 < n < |Table(PacketD)| ==> !Table(PacketD)[n].Magic?
    ensures Offset(Table(PacketD), 1) == 1 && |Table(PacketD)| == 7
  {
    TablesFill(PacketD);
  }

  // ---- The decision for each length ----------------------------------------------------------------------------------

  lemma DecideIs(env: Env, g: Bytes, p: Packet)
    requires |g| == ACK_SIZE && Parse(g) == Some(p)
    ensures WfPacket(p) && Decide(env, g) == if p.header.Version() != 0 then REJECTED else DecideBody(env, g, p)
  {
    hide Parse, DecideBody;
    PrintUndoesParse(g);
  }

  lemma RefusedUnparsed(env: Env, g: Bytes)
    requires Parse(g) == None
    ensures Decide(env, g).status == 400
  {
    hide Parse;
  }

  /** A frame of version 0 whose length is that of an unchecked body is accepted. */
  lemma UncheckedAccepted(env: Env, g: Bytes, k: Kind)
    requires |g| == ACK_SIZE && g[..4] == SYNC && g[10..14] == PAD4 && g[4] < 0x20
    requires k in {Heartbeat, PacketA, PacketH} && LengthIn(g) == BodyLen(k)
    ensures Decide(env, g).status == 200
  {
    hide Parse, Table, ReadBody, LengthIn, HeaderIn, PaymentOf, ReceiptSignature, Verified, ValidFrame, PrintBody;
    var raw := g[14..14 + LengthIn(g)];
    Unmagicals();
    UnmagicalReads(k, raw);
    ParseBodyIs(raw, k);
    ParseSnlp(g);
    HeaderInIs(g);
    DecideIs(env, g, Parse(g).value);
  }

  lemma SignatureField(s: Bytes)
    requires |s| == 98 && ReadBody(Table(PacketC), s).Some? && Fits(Table(PacketC), ReadBody(Table(PacketC), s).value)
    ensures ReceiptSignature(ReadBody(Table(PacketC), s).value) == s[26..90]
  {
    TablesFill(PacketC);
    var l := Table(PacketC);
    assert l[5] == Raw(64) && |l| == 8;
    hide Table, ReadBody;
    ReadBodyAt(l, s, 5);
    assert Slice(l, s, 5) == s[26..90];
  }

  lemma SliceOfBody(g: Bytes)
    requires |g| == ACK_SIZE
    ensures g[14..14 + 98][26..90] == g[40..104]
  {
  }

  /** Read as a receipt, the frame is accepted exactly when the bytes in the signature's place verify. */
  lemma ReceiptDecided(env: Env, g: Bytes)
    requires |g| == ACK_SIZE && g[..4] == SYNC && g[10..14] == PAD4 && g[4] < 0x20 && LengthIn(g) == 98
    ensures Decide(env, g).status == 200 <==> Verified(env, SELLER_SAT_ID, g[38..64], g[40..104])
  {
    hide Parse, Table, ReadBody, LengthIn, HeaderIn, PaymentOf, ReceiptSignature, Verified, ValidFrame, PrintBody, Fits;
    var raw := g[14..14 + LengthIn(g)];
    Unmagicals();
    UnmagicalReads(PacketC, raw);
    ParseBodyIs(raw, PacketC);
    ParseSnlp(g);
    HeaderInIs(g);
    DecideIs(env, g, Parse(g).value);
    SignatureField(raw);
    SliceOfBody(g);
  }

  lemma DeliveryDecided(env: Env, g: Bytes)
    requires |g| == ACK_SIZE && g[..4] == SYNC && g[10..14] == PAD4 && LengthIn(g) == 122
    requires g[MAGIC_AT] == MAGIC_D
    ensures Decide(env, g).status == 200 <==> g[4] < 0x20 && ValidFrame(g, ACK_SIZE - D_CRC_FROM_END)
  {
    hide Parse, Table, ReadBody, LengthIn, HeaderIn, ValidFrame;
    var raw := g[14..14 + LengthIn(g)];
    DeliveryReads(raw);
    ParseBodyIs(raw, PacketD);
    ParseSnlp(g);
    HeaderInIs(g);
    GuardedAcceptedExactlyWhen(env, g);
  }

  lemma AckReads(s: Bytes)
    requires |s| == 122 && s[0] == MAGIC_ACK
    ensures ReadBody(Table(AckSnlp), s).Some?
  {
    TablesFill(AckSnlp);
    AckMagic();
    var l := Table(AckSnlp);
    hide Table, BodyLen;
    forall n | 0 <= n < |l| ensures ReadField(l[n], Slice(l, s, n)).Some? {
      if n == 0 {
        assert Slice(l, s, 0) == [s[0]];
      }
    }
  }

  lemma AckMagic()
    ensures Table(AckSnlp)[0] == Magic(MAGIC_ACK)
    ensures forall n :: 0 < n < |Table(AckSnlp)| ==> !Table(AckSnlp)[n].Magic?
    ensures Offset(Table(AckSnlp), 1) == 1 && |Table(AckSnlp)| == 12
  {
    TablesFill(AckSnlp);
    assert Offset(Table(AckSnlp), 1) == Offsets(AckSnlp)[1] == 1;
    NoFurtherMagic(96);
  }

  lemma NoFurtherMagic(tunnel: nat)
    ensures forall n :: 0 < n < |AckFields(tunnel)| ==> !AckFields(tunnel)[n].Magic?
  {
  }

  lemma AckDecided(env: Env, g: Bytes)
    requires |g| == ACK_SIZE && g[..4] == SYNC && g[10..14] == PAD4 && LengthIn(g) == 122
    requires g[MAGIC_AT] == MAGIC_ACK
    ensures Decide(env, g).status == 200 <==> g[4] < 0x20 && ValidFrame(g, ACK_SIZE - ACK_CRC_FROM_END)
  {
    hide Parse, Table, ReadBody, LengthIn, HeaderIn, ValidFrame;
    var raw := g[14..14 + LengthIn(g)];
    AckReads(raw);
    ParseBodyIs(raw, AckSnlp);
    ParseSnlp(g);
    HeaderInIs(g);
    GuardedAcceptedExactlyWhen(env, g);
  }

  /** Every length but five is refused, unless the checksum of an ACK agrees. */
  lemma OthersRefused(env: Env, g: Bytes)
    requires |g| == ACK_SIZE && g[..4] == SYNC && g[10..14] == PAD4
    requires LengthIn(g) !in {34, 66, 98, 106, 122} && (LengthIn(g) == 114 ==> g[MAGIC_AT] != MAGIC_ACK || !ValidFrame(g, ACK_SIZE - ACK_CRC_FROM_END))
    ensures Decide(env, g).status == 400
  {
    hide Parse, Table, ReadBody, LengthIn, HeaderIn, ValidFrame, PaymentOf, ReceiptSignature, Verified, PrintBody, Fits;
    ParseSnlp(g);
    if Parse(g).Some? {
      var p := Parse(g).value;
      var raw := g[14..14 + LengthIn(g)];
      OtherKinds(raw);
      DecideIs(env, g, p);
    }
  }

  lemma OtherKinds(raw: Bytes)
    requires |raw| <= 122 && |raw| !in {34, 66, 98, 106, 122}
    ensures ParseBody(raw).Some? && ParseBody(raw).value.Known? ==> ParseBody(raw).value.kind == AckCcsds
  {
    hide Table, ReadBody;
  }

  /** A 122-byte body with neither magic byte is refused. */
  lemma NoMagicRefused(env: Env, g: Bytes)
    requires |g| == ACK_SIZE && g[..4] == SYNC && g[10..14] == PAD4 && LengthIn(g) == 122
    requires g[MAGIC_AT] != MAGIC_ACK && g[MAGIC_AT] != MAGIC_D
    ensures Decide(env, g).status == 400
  {
    hide Parse, Table, ReadBody, LengthIn, HeaderIn, ValidFrame, PaymentOf, ReceiptSignature, Verified, PrintBody, Fits;
    ParseSnlp(g);
    DecideIs(env, g, Parse(g).value);
  }

  // ---- The theorems ------------------------------------------------------------------------------------------------

  lemma AckFrameBytes(in_: AckInputs)
    requires |in_.encTunnel| == 96
    ensures var f := AckFrame(in_);
            && f[..4] == SYNC && f[4..10] == [0x18, 0x65, 0xC0, 0, 0, 121] && f[10..14] == PAD4 && f[MAGIC_AT] == MAGIC_ACK
  {
    hide BE, Crc, Prefix, WriteBody, AckVals, Parse, ValidFrame;
    FixedHeaders();
    WordRoundTrip(0x1865);
    WordRoundTrip(0xC000);
    WordRoundTrip(121);
    AckFrameGood(in_);
    var p := AckPacket(in_);
    FirstByteIsMagic(AckSnlp, p.body.vals);
    var w := WriteHeader(true, p.header);
    assert w == SYNC + [0x18, 0x65, 0xC0, 0, 0, 121] + PAD4;
    var f := AckFrame(in_);
    assert f == w + WriteBody(Table(AckSnlp), p.body.vals);
  }

  lemma DeliveryFrameBytes(in_: DeliveryInputs)
    requires |in_.payload| == 98
    ensures var f := DFrame(in_);
            && f[..4] == SYNC && f[4..10] == [0x08, 0x65, 0xC0, 0, 0, 121] && f[10..14] == PAD4 && f[MAGIC_AT] == MAGIC_D
  {
    hide BE, Crc, Prefix, WriteBody, DVals, Parse, ValidFrame;
    FixedHeaders();
    WordRoundTrip(0x0865);
    WordRoundTrip(0xC000);
    WordRoundTrip(121);
    DFrameGood(in_);
    var p := DPacket(in_);
    FirstByteIsMagic(PacketD, p.body.vals);
    var w := WriteHeader(true, p.header);
    assert w == SYNC + [0x08, 0x65, 0xC0, 0, 0, 121] + PAD4;
    var f := DFrame(in_);
    assert f == w + WriteBody(Table(PacketD), p.body.vals);
  }

  lemma PadDiffers(f: Bytes, g: Bytes, i: nat)
    requires |f| == |g| == ACK_SIZE && f[10..14] == PAD4 && 10 <= i < 14 && f[i] != g[i]
    ensures g[10..14] != PAD4
  {
    assert f[10..14][i - 10] != g[10..14][i - 10];
  }

  lemma SyncDiffers(f: Bytes, g: Bytes, i: nat)
    requires |f| == |g| == ACK_SIZE && f[..4] == SYNC && i < 4 && f[i] != g[i]
    ensures g[..4] != SYNC
  {
    assert f[..4][i] != g[..4][i];
  }

  lemma HeadBytes(f: Bytes, id: U8)
    requires |f| == ACK_SIZE && f[4..10] == [id, 0x65, 0xC0, 0, 0, 121]
    ensures f[4] == id && f[5] == 0x65 && f[8] == 0 && f[9] == 121
  {
    assert f[4] == f[4..10][0] && f[5] == f[4..10][1] && f[8] == f[4..10][4] && f[9] == f[4..10][5];
  }

  /** A corrupted sync word or pad is refused; otherwise sync word and pad are as they were. */
  lemma HeadDamage(env: Env, f: Bytes, i: nat, b: U8, id: U8)
    requires |f| == ACK_SIZE && f[..4] == SYNC && f[4..10] == [id, 0x65, 0xC0, 0, 0, 121] && f[10..14] == PAD4
    requires id in {0x18, 0x08} && i < ACK_SIZE && b != f[i]
    ensures var g := f[i := b];
            if i < 4 || 10 <= i < 14 then Decide(env, g).status == 400 else g[..4] == SYNC && g[10..14] == PAD4
  {
    hide Parse, Decide, SYNC, PAD4;
    HeadBytes(f, id);
    var g := f[i := b];
    if i < 4 {
      SyncDiffers(f, g, i);
      NoSyncNoParse(g);
      RefusedUnparsed(env, g);
    } else {
      assert g[..4] == f[..4];
      if 10 <= i < 14 {
        PadDiffers(f, g, i);
        NoPadNoParse(g);
        RefusedUnparsed(env, g);
      } else {
        assert g[10..14] == f[10..14];
      }
    }
  }

  /** For every ACK frame, every place and every wrong byte: ingest accepts the frame exactly when the corruption is
      one of those that make it another packet. */
  lemma DamagedAckAcceptedExactlyWhen(env: Env, in_: AckInputs, i: nat, b: U8)
    requires |in_.encTunnel| == 96 && i < ACK_SIZE
    ensures b != AckFrame(in_)[i] ==>
              (Decide(env, AckFrame(in_)[i := b]).status == 200 <==> AckGetsThrough(env, AckFrame(in_)[i := b], i))
  {
    hide Parse, ValidFrame, AckFrame, Decide, Verified, SYNC, PAD4;
    var f := AckFrame(in_);
    var g := f[i := b];
    if b != f[i] {
      AckFrameBytes(in_);
      HeadBytes(f, 0x18);
      HeadDamage(env, f, i, b, 0x18);
      AckDamage(in_, i, b);
      if 4 <= i < 10 || 14 <= i {
        Routed(env, g, i);
        AckOrDelivery(env, g, i);
      }
    }
  }

  /** The same for every D frame. */
  lemma DamagedDeliveryAcceptedExactlyWhen(env: Env, in_: DeliveryInputs, i: nat, b: U8)
    requires |in_.payload| == 98 && i < D_SIZE
    ensures b != DFrame(in_)[i] ==>
              (Decide(env, DFrame(in_)[i := b]).status == 200 <==> DeliveryGetsThrough(env, DFrame(in_)[i := b], i))
  {
    hide Parse, ValidFrame, DFrame, Decide, Verified, SYNC, PAD4;
    var f := DFrame(in_);
    var g := f[i := b];
    if b != f[i] {
      DeliveryFrameBytes(in_);
      HeadBytes(f, 0x08);
      HeadDamage(env, f, i, b, 0x08);
      DeliveryDamage(in_, i, b);
      if 4 <= i < 10 || 14 <= i {
        Routed(env, g, i);
        AckOrDelivery(env, g, i);
      }
    }
  }

  /** With the length field damaged, the relabelled frames are the ones accepted; one of the two checksums would have to
      agree for a 114-byte ACK, and does not. */
  lemma Routed(env: Env, g: Bytes, i: nat)
    requires |g| == ACK_SIZE && g[..4] == SYNC && g[10..14] == PAD4
    requires 4 <= i < ACK_SIZE && (i == 4 || g[4] < 0x20) && (i == 8 <==> g[8] != 0) && (i == 9 <==> g[9] != 121)
    requires i in {8, 9} ==> g[MAGIC_AT] != MAGIC_ACK || !ValidFrame(g, ACK_SIZE - ACK_CRC_FROM_END)
    ensures i in {8, 9} ==> (Decide(env, g).status == 200 <==> Relabelled(env, g, i))
    ensures i !in {8, 9} ==> LengthIn(g) == 122
  {
    hide Parse, ValidFrame, Decide, Verified, SYNC, PAD4;
    if i == LENGTH_LOW && g[9] == 33 {
      UncheckedAccepted(env, g, Heartbeat);
    } else if i == LENGTH_LOW && g[9] == 65 {
      UncheckedAccepted(env, g, PacketA);
    } else if i == LENGTH_LOW && g[9] == 105 {
      UncheckedAccepted(env, g, PacketH);
    } else if i == LENGTH_LOW && g[9] == 97 {
      ReceiptDecided(env, g);
    } else if i in {8, 9} {
      OthersRefused(env, g);
    }
  }

  /** With the length intact, the magic byte decides which checksum counts. */
  lemma AckOrDelivery(env: Env, g: Bytes, i: nat)
    requires |g| == ACK_SIZE && g[..4] == SYNC && g[10..14] == PAD4
    ensures LengthIn(g) == 122 ==>
              (Decide(env, g).status == 200 <==>
               g[4] < 0x20
               && ((g[MAGIC_AT] == MAGIC_ACK && ValidFrame(g, ACK_SIZE - ACK_CRC_FROM_END))
                   || (g[MAGIC_AT] == MAGIC_D && ValidFrame(g, ACK_SIZE - D_CRC_FROM_END))))
  {
    hide Parse, ValidFrame, Decide, SYNC, PAD4, LengthIn;
    if LengthIn(g) == 122 {
      if g[MAGIC_AT] == MAGIC_ACK {
        AckDecided(env, g);
      } else if g[MAGIC_AT] == MAGIC_D {
        DeliveryDecided(env, g);
      } else {
        NoMagicRefused(env, g);
      }
    }
  }
}
