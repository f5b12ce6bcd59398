/**
 Properties of the responder: what the ciphertext receiver delivers with and
 without a header (and where the sniffing misreads), and what one served
 connection writes to the wire, in which order and on which paths.
 */
module ServerProps {
  import opened Transport
  import opened Kem
  import opened Framing
  import opened ReliableIo
  import Server

  /** The 2-byte peek returns both bytes: at least two are pending and the
      call is neither cut short nor failing. */
  predicate PeekSeesTwo(w: Wire) {
    && |w.incoming| >= 2
    && (w.recvPlan == [] || (w.recvPlan[0].Deliver? && w.recvPlan[0].limit >= 2))
  }

  /** The receive schedule after the peek: the peek uses up one entry. */
  function AfterPeek(plan: seq<RecvOutcome>): seq<RecvOutcome> {
    if plan == [] then [] else plan[1..]
  }

  lemma PeekSeesTwoExactly(w: Wire)
    ensures RecvStep(w, 2, true).n == 2 <==> PeekSeesTwo(w)
  {
  }

  lemma RetryableTail(plan: seq<RecvOutcome>)
    requires RecvRetryable(plan)
    ensures RecvRetryable(AfterPeek(plan))
  {
    var rest := AfterPeek(plan);
    forall i | 0 <= i < |rest| ensures rest[i].Deliver? || rest[i].errno == EINTR {
      assert rest[i] == plan[i + 1];
    }
  }

  /** Header branch: a peek that shows two bytes equal to the expected
      length consumes them; the ciphertext is the `expectedLen` bytes after
      them, and arrives whenever the peer sends that many and receives fail
      only by interruption. */
  lemma SniffCtWithHeader(w: Wire, expectedLen: nat)
    requires PeekSeesTwo(w) && Be16(w.incoming[..2]) == expectedLen
    ensures var t := Server.SniffCt(w, expectedLen);
      && (t.rc == 0 ==>
            && 2 + expectedLen <= |w.incoming|
            && t.data == w.incoming[2..2 + expectedLen]
            && t.wire.incoming == w.incoming[2 + expectedLen..])
      && (2 + expectedLen <= |w.incoming| && RecvRetryable(AfterPeek(w.recvPlan)) ==> t.rc == 0)
  {
    var p := RecvStep(w, 2, true);
    assert p.n == 2 && p.data == w.incoming[..2] && p.wire.incoming == w.incoming;
    RecvAllFromConsumes(p.wire, 2, []);
    var h := RecvAll(p.wire, 2);
    if h.rc == 0 {
      assert h.wire.incoming == w.incoming[2..];
      RecvAllExact(h.wire, expectedLen);
      if 2 + expectedLen <= |w.incoming| {
        assert w.incoming[2..][..expectedLen] == w.incoming[2..2 + expectedLen];
        assert w.incoming[2..][expectedLen..] == w.incoming[2 + expectedLen..];
        if RecvRetryable(p.wire.recvPlan) {
          RecvAllLeavesRetryable(p.wire, 2);
          RecvAllSucceeds(h.wire, expectedLen);
        }
      }
    } else if 2 + expectedLen <= |w.incoming| && RecvRetryable(p.wire.recvPlan) {
      RecvAllSucceeds(p.wire, 2);
    }
  }

  /** No-header branch: when the peek does not show the expected length
      (other bytes, fewer than two, or a failed peek), nothing is consumed
      before the ciphertext, which is the first `expectedLen` bytes of the
      stream, peeked bytes included. */
  lemma SniffCtWithoutHeader(w: Wire, expectedLen: nat)
    requires !PeekSeesTwo(w) || Be16(w.incoming[..2]) != expectedLen
    ensures var t := Server.SniffCt(w, expectedLen);
      && (t.rc == 0 ==>
            && expectedLen <= |w.incoming|
            && t.data == w.incoming[..expectedLen]
            && t.wire.incoming == w.incoming[expectedLen..])
      && (expectedLen <= |w.incoming| && RecvRetryable(AfterPeek(w.recvPlan)) ==> t.rc == 0)
  {
    var p := RecvStep(w, 2, true);
    assert p.wire.incoming == w.incoming && p.wire.recvPlan == AfterPeek(w.recvPlan);
    RecvAllExact(p.wire, expectedLen);
    if expectedLen <= |w.incoming| && RecvRetryable(AfterPeek(w.recvPlan)) {
      RecvAllSucceeds(p.wire, expectedLen);
    }
  }

  /** For every CT whose first two bytes are not `0x04 0x40`, both framings
      hand the server the same ciphertext, provided the peek is not cut
      short and receives fail only by interruption. */
  lemma BothFramingsAgree(ct: Ciphertext, rest: seq<byte>, plan: seq<RecvOutcome>, o: seq<byte>, sp: seq<SendOutcome>)
    requires ct[..2] != CtHeader()
    requires RecvRetryable(plan) && (plan == [] || (plan[0].Deliver? && plan[0].limit >= 2))
    ensures var framed := Server.SniffCt(Wire(CtFrame(true, ct) + rest, plan, o, sp), CT_LEN);
            var bare := Server.SniffCt(Wire(CtFrame(false, ct) + rest, plan, o, sp), CT_LEN);
      framed.rc == 0 && bare.rc == 0 && framed.data == ct && bare.data == ct
  {
    RetryableTail(plan);
    var w1 := Wire(CtFrame(true, ct) + rest, plan, o, sp);
    assert w1.incoming[..2] == CtHeader();
    SniffCtWithHeader(w1, CT_LEN);
    assert w1.incoming[2..2 + CT_LEN] == ct;
    var w2 := Wire(CtFrame(false, ct) + rest, plan, o, sp);
    assert w2.incoming[..2] == ct[..2];
    Be16Injective(w2.incoming[..2], CT_LEN);
    SniffCtWithoutHeader(w2, CT_LEN);
    assert w2.incoming[..CT_LEN] == ct;
  }

  /** The known ambiguity: an unheadered CT that begins `0x04 0x40` is taken
      for a header.  Its first two bytes are dropped, the server needs 1090
      bytes, and when the peer sends only the CT and then closes, the
      receive fails (`Server.SniffCtWaits` covers a peer that stays open). */
  lemma UnheaderedCtMisread(ct: Ciphertext, rest: seq<byte>, plan: seq<RecvOutcome>, o: seq<byte>, sp: seq<SendOutcome>)
    requires ct[..2] == CtHeader()
    requires plan == [] || (plan[0].Deliver? && plan[0].limit >= 2)
    ensures var t := Server.SniffCt(Wire(ct + rest, plan, o, sp), CT_LEN);
      && (t.rc == 0 ==> 2 <= |rest| && t.data == ct[2..] + rest[..2])
      && (|rest| < 2 ==> t.rc == -1)
  {
    var w := Wire(ct + rest, plan, o, sp);
    assert w.incoming[..2] == ct[..2];
    assert Be16(w.incoming[..2]) == CT_LEN;
    SniffCtWithHeader(w, CT_LEN);
    Server.SniffCtShape(w, CT_LEN);
    if 2 <= |rest| {
      assert w.incoming[2..2 + CT_LEN] == ct[2..] + rest[..2];
    }
  }

  /** A headered CT is misread too when the peek does not return both
      header bytes (the peer's first segment carries one byte, or the peek
      fails, EINTR included): the header is then read as the first two CT
      bytes and the last two CT bytes are left on the stream. */
  lemma HeaderMissedByShortPeek(ct: Ciphertext, rest: seq<byte>, plan: seq<RecvOutcome>, o: seq<byte>, sp: seq<SendOutcome>)
    requires plan != [] && (plan[0] == Deliver(1) || plan[0].RecvError?)
    ensures var t := Server.SniffCt(Wire(CtFrame(true, ct) + rest, plan, o, sp), CT_LEN);
      t.rc == 0 ==> t.data == CtHeader() + ct[..CT_LEN - 2]
  {
    var w := Wire(CtFrame(true, ct) + rest, plan, o, sp);
    SniffCtWithoutHeader(w, CT_LEN);
    assert w.incoming[..CT_LEN] == CtHeader() + ct[..CT_LEN - 2];
  }

  /** The receiver of the CT only touches the receiving side. */
  lemma SniffCtIgnoresSendSide(w: Wire, expectedLen: nat, o: seq<byte>, p: seq<SendOutcome>)
    ensures var t := Server.SniffCt(w, expectedLen);
      Server.SniffCt(w.(outgoing := o, sendPlan := p), expectedLen) == t.(wire := t.wire.(outgoing := o, sendPlan := p))
  {
    var pk := RecvStep(w, 2, true);
    var v := w.(outgoing := o, sendPlan := p);
    assert RecvStep(v, 2, true) == pk.(wire := pk.wire.(outgoing := o, sendPlan := p));
    RecvAllFromIgnoresSendSide(pk.wire, 2, [], o, p);
    var h := RecvAll(pk.wire, 2);
    RecvAllFromIgnoresSendSide(h.wire, expectedLen, [], o, p);
    RecvAllFromIgnoresSendSide(pk.wire, expectedLen, [], o, p);
  }

  /** Over a schedule whose failures are all interruptions, the CT receiver
      waits exactly when it fails. */
  lemma SniffCtWaitsIffFails(w: Wire, expectedLen: nat)
    requires expectedLen > 0 && RecvRetryable(w.recvPlan)
    ensures Server.SniffCtWaits(w, expectedLen) <==> Server.SniffCt(w, expectedLen).rc != 0
  {
    var p := RecvStep(w, 2, true);
    RetryableTail(w.recvPlan);
    assert p.wire.recvPlan == AfterPeek(w.recvPlan);
    if RecvWaits(w, 2) {
      assert p.n != 2;
      RecvAllFromConsumes(p.wire, expectedLen, []);
      assert Server.SniffCt(w, expectedLen) == RecvAll(p.wire, expectedLen);
    } else if p.n == 2 && Be16(p.data) == expectedLen {
      HeaderReadWaitsIffFails(p.wire, expectedLen);
    } else {
      RecvAllWaitsIffFails(p.wire, expectedLen, []);
    }
  }

  /** The header branch of `SniffCtWaitsIffFails`. */
  lemma HeaderReadWaitsIffFails(v: Wire, expectedLen: nat)
    requires RecvRetryable(v.recvPlan)
    ensures var h := RecvAll(v, 2);
      (RecvAllWaits(v, 2, []) || (h.rc == 0 && RecvAllWaits(h.wire, expectedLen, [])))
      <==> (h.rc != 0 || RecvAll(h.wire, expectedLen).rc != 0)
  {
    RecvAllWaitsIffFails(v, 2, []);
    RecvAllLeavesRetryable(v, 2);
    RecvAllWaitsIffFails(RecvAll(v, 2).wire, expectedLen, []);
  }

  /** With a receive timeout the CT receiver ends as it does when the
      initiator closes: a timed-out call fails where the model's call
      returns 0, and both end the transfer with -1. */
  lemma SniffCtTimedLikeClose(w: Wire, expectedLen: nat)
    ensures Server.SniffCtTimed(w, expectedLen) == Server.SniffCt(w, expectedLen)
  {
    var p := RecvStep(w, 2, true);
    RecvAllTimedLikeClose(p.wire, 2, []);
    RecvAllTimedLikeClose(p.wire, expectedLen, []);
    RecvAllTimedLikeClose(RecvAll(p.wire, 2).wire, expectedLen, []);
  }

  /** The PK message the server sends first: its header, then the key. */
  function PkMessage(pk: PublicKey): (m: seq<byte>)
    ensures |m| == 2 + PK_LEN && m[..2] == [0x04, 0xA0] && m[2..] == pk
  {
    PkHeader() + pk
  }

  /** Step 1 writes the PK message (a proper prefix of it when a send fails)
      and leaves the receiving side as it was. */
  lemma SendPkTranscript(w: Wire, pk: PublicKey)
    ensures var a := Server.SendPk(w, pk);
      && (a.rc == 0 || a.rc == -1)
      && a.wire.incoming == w.incoming && a.wire.recvPlan == w.recvPlan
      && (a.rc == 0 ==> a.wire.outgoing == w.outgoing + PkMessage(pk))
      && (a.rc != 0 ==> exists k :: 0 <= k < 2 + PK_LEN && a.wire.outgoing == w.outgoing + PkMessage(pk)[..k])
  {
    var h := SendAll(w, PkHeader(), false);
    SendAllFromAppends(w, PkHeader(), 0, false);
    if h.rc != 0 {
      assert Server.SendPk(w, pk) == h;
      MessagePrefix(w.outgoing, PkHeader(), pk, |h.data|);
      assert h.wire.outgoing == w.outgoing + PkMessage(pk)[..|h.data|];
    } else {
      assert Server.SendPk(w, pk) == SendAll(h.wire, pk, false);
      SendAfterHeader(w, h, PkHeader(), pk, false);
      assert PkMessage(pk) == PkHeader() + pk;
    }
  }

  /** Steps 2 to 4, path by path, with `ct` the CT receiver's result: the SS
      goes out only after the CT arrived in full and decapsulation returned
      0, and every other path writes nothing. */
  lemma ReplyTranscript(w: Wire, sk: SecretKey, dec: Decaps)
    ensures var r := Server.Reply(w, sk, dec);
            var ct := Server.SniffCt(w, CT_LEN);
      && (r.outcome == Server.CtRecvFailed ==> ct.rc != 0 && r.wire.outgoing == w.outgoing)
      && (r.outcome == Server.DecapsFailed ==>
            && ct.rc == 0 && |ct.data| == CT_LEN && dec(ct.data, sk).status != 0
            && r.wire.outgoing == w.outgoing)
      && (r.outcome == Server.SsSendFailed ==>
            && ct.rc == 0 && |ct.data| == CT_LEN && dec(ct.data, sk).status == 0
            && exists k :: 0 <= k < SS_LEN && r.wire.outgoing == w.outgoing + dec(ct.data, sk).ss[..k])
      && (r.outcome == Server.Served ==>
            && ct.rc == 0 && |ct.data| == CT_LEN && dec(ct.data, sk).status == 0
            && r.wire.outgoing == w.outgoing + dec(ct.data, sk).ss)
      && r.outcome != Server.PkSendFailed
  {
    var c := Server.SniffCt(w, CT_LEN);
    Server.SniffCtShape(w, CT_LEN);
    if c.rc == 0 {
      var d := dec(c.data, sk);
      if d.status == 0 {
        var e := SendAll(c.wire, d.ss, false);
        SendAllFromAppends(c.wire, d.ss, 0, false);
        assert e.wire.outgoing == w.outgoing + d.ss[..|e.data|];
      }
    }
  }

  /** What one connection writes, in order: the PK message, and then the SS
      only after the CT, received from the stream as the peer sent it,
      arrived in full and decapsulated with status 0.  A failure at any step
      writes nothing more. */
  lemma ServeTranscript(w: Wire, pk: PublicKey, sk: SecretKey, dec: Decaps)
    ensures var r := Server.Serve(w, pk, sk, dec);
            var ct := Server.SniffCt(w, CT_LEN);
      && (r.outcome == Server.PkSendFailed ==>
            exists k :: 0 <= k < 2 + PK_LEN && r.wire.outgoing == w.outgoing + PkMessage(pk)[..k])
      && (r.outcome == Server.CtRecvFailed ==>
            ct.rc != 0 && r.wire.outgoing == w.outgoing + PkMessage(pk))
      && (r.outcome == Server.DecapsFailed ==>
            && ct.rc == 0 && |ct.data| == CT_LEN && dec(ct.data, sk).status != 0
            && r.wire.outgoing == w.outgoing + PkMessage(pk))
      && (r.outcome == Server.SsSendFailed ==>
            && ct.rc == 0 && |ct.data| == CT_LEN && dec(ct.data, sk).status == 0
            && exists k :: 0 <= k < SS_LEN && r.wire.outgoing == w.outgoing + PkMessage(pk) + dec(ct.data, sk).ss[..k])
      && (r.outcome == Server.Served ==>
            && ct.rc == 0 && |ct.data| == CT_LEN && dec(ct.data, sk).status == 0
            && r.wire.outgoing == w.outgoing + PkMessage(pk) + dec(ct.data, sk).ss)
  {
    var a := Server.SendPk(w, pk);
    SendPkTranscript(w, pk);
    if a.rc == 0 {
      assert a.wire == w.(outgoing := a.wire.outgoing, sendPlan := a.wire.sendPlan);
      SniffCtIgnoresSendSide(w, CT_LEN, a.wire.outgoing, a.wire.sendPlan);
      ReplyTranscript(a.wire, sk, dec);
      var ct := Server.SniffCt(w, CT_LEN);
      Server.SniffCtShape(w, CT_LEN);
      if ct.rc == 0 {
        var ss := dec(ct.data, sk).ss;
        forall k | 0 <= k <= SS_LEN
          ensures a.wire.outgoing + ss[..k] == w.outgoing + PkMessage(pk) + ss[..k]
        {
        }
      }
    }
  }

  /** Step 1 succeeds whenever sends fail only by interruption; the
      schedule left over is a suffix of the one before. */
  lemma SendPkSucceeds(w: Wire, pk: PublicKey)
    requires SendRetryable(w.sendPlan, false)
    ensures var a := Server.SendPk(w, pk);
      a.rc == 0 && SendRetryable(a.wire.sendPlan, false)
  {
    var h := SendAll(w, PkHeader(), false);
    SendAllSucceeds(w, PkHeader(), false);
    SendAllLeavesRetryable(w, PkHeader(), false);
    SendAllSucceeds(h.wire, pk, false);
    SendAllLeavesRetryable(h.wire, pk, false);
  }

  /** Steps 2 to 4 succeed when the peer's CT is read correctly and
      decapsulation returns 0; the reply is then exactly the SS. */
  lemma ReplySucceeds(w: Wire, sk: SecretKey, dec: Decaps, ct: Ciphertext)
    requires Server.SniffCt(w, CT_LEN).rc == 0 && Server.SniffCt(w, CT_LEN).data == ct
    requires SendRetryable(w.sendPlan, false)
    requires dec(ct, sk).status == 0
    ensures Server.Reply(w, sk, dec).outcome == Server.Served
    ensures Server.Reply(w, sk, dec).wire.outgoing == w.outgoing + dec(ct, sk).ss
  {
    Server.SniffCtShape(w, CT_LEN);
    var c := Server.SniffCt(w, CT_LEN);
    SendAllSucceeds(c.wire, dec(ct, sk).ss, false);
  }

  /** A connection is served in full when the transport fails only by
      interruption, the peek is not cut short, the peer sends a CT that the
      sniffing reads correctly, and decapsulation succeeds. */
  lemma ServeSucceeds(w: Wire, pk: PublicKey, sk: SecretKey, dec: Decaps, withHeader: bool, ct: Ciphertext)
    requires w.incoming == CtFrame(withHeader, ct)
    requires !withHeader ==> ct[..2] != CtHeader()
    requires RecvRetryable(w.recvPlan) && (w.recvPlan == [] || (w.recvPlan[0].Deliver? && w.recvPlan[0].limit >= 2))
    requires SendRetryable(w.sendPlan, false)
    requires dec(ct, sk).status == 0
    ensures Server.Serve(w, pk, sk, dec).outcome == Server.Served
    ensures Server.Serve(w, pk, sk, dec).wire.outgoing == w.outgoing + PkMessage(pk) + dec(ct, sk).ss
  {
    var a := Server.SendPk(w, pk);
    SendPkSucceeds(w, pk);
    SendPkTranscript(w, pk);
    assert a.wire == w.(outgoing := a.wire.outgoing, sendPlan := a.wire.sendPlan);
    SniffCtIgnoresSendSide(w, CT_LEN, a.wire.outgoing, a.wire.sendPlan);
    RetryableTail(w.recvPlan);
    if withHeader {
      assert w.incoming[..2] == CtHeader();
      SniffCtWithHeader(w, CT_LEN);
      assert w.incoming[2..2 + CT_LEN] == ct;
    } else {
      Be16Injective(w.incoming[..2], CT_LEN);
      SniffCtWithoutHeader(w, CT_LEN);
      assert w.incoming[..CT_LEN] == ct;
    }
    ReplySucceeds(a.wire, sk, dec, ct);
  }
}
