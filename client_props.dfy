/**
 Properties of the initiator: what it reads and writes on each path, the
 header check, the effect of the two corruption options, and its exit
 status.
 */
module ClientProps {
  import opened Transport
  import opened Kem
  import opened Framing
  import opened ClientArgs
  import opened ReliableIo
  import Client

  /** A PK message is accepted only when its header is `0x04 0xA0`; the key
      is then the 1184 bytes after it. */
  lemma FetchPkReads(w: Wire)
    ensures var f := Client.FetchPk(w);
      f.rc == 0 ==>
        && 2 + PK_LEN <= |w.incoming|
        && w.incoming[..2] == PkHeader()
        && f.data == w.incoming[2..2 + PK_LEN]
        && f.wire.incoming == w.incoming[2 + PK_LEN..]
  {
    RecvAllExact(w, 2);
    var h := RecvAll(w, 2);
    if h.rc == 0 && Be16(h.data) == PK_LEN {
      Be16Injective(h.data, PK_LEN);
      RecvAllExact(h.wire, PK_LEN);
      if 2 + PK_LEN <= |w.incoming| {
        assert w.incoming[2..][..PK_LEN] == w.incoming[2..2 + PK_LEN];
        assert w.incoming[2..][PK_LEN..] == w.incoming[2 + PK_LEN..];
      }
    }
  }

  /** A header that does not decode to 1184 ends the run with status 1
      after reading only the two header bytes: the key is not read and
      nothing is sent. */
  lemma PkHeaderMismatch(w: Wire, cfg: Config, enc: Encaps)
    requires 2 <= |w.incoming| && RecvAll(w, 2).rc == 0 && Be16(w.incoming[..2]) != PK_LEN
    ensures var r := Client.Initiate(w, cfg, enc);
      && r.exit == 1
      && r.wire.incoming == w.incoming[2..]
      && r.wire.outgoing == w.outgoing
  {
    RecvAllExact(w, 2);
    RecvAllFromConsumes(w, 2, []);
  }

  /** Sending the CT writes its frame, or a proper prefix of it on failure,
      and touches nothing on the receiving side. */
  lemma SendCtFrames(w: Wire, withHeader: bool, ct: Ciphertext)
    ensures var s := Client.SendCt(w, withHeader, ct);
      && (s.rc == 0 || s.rc == -1)
      && s.wire.incoming == w.incoming && s.wire.recvPlan == w.recvPlan
      && (s.rc == 0 ==> s.wire.outgoing == w.outgoing + CtFrame(withHeader, ct))
      && (s.rc != 0 ==> exists k :: 0 <= k < |CtFrame(withHeader, ct)| && s.wire.outgoing == w.outgoing + CtFrame(withHeader, ct)[..k])
  {
    var f := CtFrame(withHeader, ct);
    if withHeader {
      var a := SendAll(w, CtHeader(), true);
      SendAllFromAppends(w, CtHeader(), 0, true);
      if a.rc != 0 {
        assert Client.SendCt(w, withHeader, ct) == a;
        MessagePrefix(w.outgoing, CtHeader(), ct, |a.data|);
        assert a.wire.outgoing == w.outgoing + f[..|a.data|];
      } else {
        assert Client.SendCt(w, withHeader, ct) == SendAll(a.wire, ct, true);
        SendAfterHeader(w, a, CtHeader(), ct, true);
      }
    } else {
      var s := SendAll(w, ct, true);
      assert Client.SendCt(w, withHeader, ct) == s;
      SendAllFromAppends(w, ct, 0, true);
      assert s.wire.outgoing == w.outgoing + f[..|s.data|];
    }
  }

  /** After the CT is sent: the SS read is the 32 bytes the peer sent next,
      and the status compares it with the client's own. */
  lemma FinishTranscript(w: Wire, withHeader: bool, pk: PublicKey, ss: SharedSecret, ct: Ciphertext)
    ensures var r := Client.Finish(w, withHeader, pk, ss, ct);
      && (r.exit == 0 || r.exit == 1 || r.exit == 3)
      && r.ssClient == ss && r.ctSent == ct && r.pk == pk
      && (exists k :: 0 <= k <= |CtFrame(withHeader, ct)| && r.wire.outgoing == w.outgoing + CtFrame(withHeader, ct)[..k])
      && (r.exit != 1 ==>
            && r.wire.outgoing == w.outgoing + CtFrame(withHeader, ct)
            && |r.ssServer| == SS_LEN
            && w.incoming == r.ssServer + r.wire.incoming
            && (r.exit == 0 <==> r.ssClient == r.ssServer))
  {
    var s := Client.SendCt(w, withHeader, ct);
    SendCtFrames(w, withHeader, ct);
    var f := CtFrame(withHeader, ct);
    if s.rc == 0 {
      assert f[..|f|] == f;
      RecvAllExact(s.wire, SS_LEN);
      RecvAllFromConsumes(s.wire, SS_LEN, []);
      var r := RecvAll(s.wire, SS_LEN);
      if r.rc == 0 {
        assert w.incoming == w.incoming[..SS_LEN] + w.incoming[SS_LEN..];
      }
    }
  }

  /** From the received key on: encapsulation against the key in use, then
      the CT frame out and the SS in. */
  lemma ExchangeTranscript(w: Wire, cfg: Config, enc: Encaps, pk: PublicKey)
    ensures var r := Client.Exchange(w, cfg, enc, pk);
      && (r.exit == 0 || r.exit == 1 || r.exit == 3)
      && r.pk == pk
      && (r.ctSent == [] ==> r.exit == 1 && r.wire.outgoing == w.outgoing)
      && (r.exit != 1 ==>
            && |r.ssServer| == SS_LEN
            && w.incoming == r.ssServer + r.wire.incoming
            && r.wire.outgoing == w.outgoing + CtFrame(cfg.sendCtHeader, r.ctSent)
            && r.ssClient == enc(Client.UsedPk(pk, cfg)).ss
            && r.ctSent == Client.UsedCt(enc(Client.UsedPk(pk, cfg)).ct, cfg)
            && (r.exit == 0 <==> r.ssClient == r.ssServer)
            && (r.exit == 3 <==> r.ssClient != r.ssServer))
  {
    var e := enc(Client.UsedPk(pk, cfg));
    if e.status == 0 {
      FinishTranscript(w, cfg.sendCtHeader, pk, e.ss, Client.UsedCt(e.ct, cfg));
    }
  }

  /** What a whole run reads and writes.  Past the key exchange (status 0
      or 3) the peer sent exactly the PK message and then the SS the client
      read, and the client wrote exactly the CT frame.  Its own SS and the
      CT it sent are those of the encapsulation against the key it used;
      the status is 0 exactly when the two SSs are equal.  A run that sent
      no CT ends with status 1 having written nothing. */
  lemma ClientTranscript(w: Wire, cfg: Config, enc: Encaps)
    ensures var r := Client.Initiate(w, cfg, enc);
      && (r.exit == 0 || r.exit == 1 || r.exit == 3)
      && (r.ctSent == [] ==> r.exit == 1 && r.wire.outgoing == w.outgoing)
      && (r.exit != 1 ==>
            && |r.pk| == PK_LEN && |r.ssServer| == SS_LEN
            && w.incoming == PkHeader() + r.pk + r.ssServer + r.wire.incoming
            && r.wire.outgoing == w.outgoing + CtFrame(cfg.sendCtHeader, r.ctSent)
            && r.ssClient == enc(Client.UsedPk(r.pk, cfg)).ss
            && r.ctSent == Client.UsedCt(enc(Client.UsedPk(r.pk, cfg)).ct, cfg)
            && (r.exit == 0 <==> r.ssClient == r.ssServer)
            && (r.exit == 3 <==> r.ssClient != r.ssServer))
  {
    var f := Client.FetchPk(w);
    FetchPkReads(w);
    if f.rc == 0 {
      ExchangeTranscript(f.wire, cfg, enc, f.data);
      var r := Client.Exchange(f.wire, cfg, enc, f.data);
      if r.exit != 1 {
        assert w.incoming == w.incoming[..2] + w.incoming[2..2 + PK_LEN] + w.incoming[2 + PK_LEN..];
        assert PkHeader() + r.pk + r.ssServer + r.wire.incoming == PkHeader() + r.pk + (r.ssServer + r.wire.incoming);
      }
    }
  }

  /** A peer that sends fewer bytes than a PK message and an SS together
      and then closes makes the run end with status 1. */
  lemma ShortStreamFails(w: Wire, cfg: Config, enc: Encaps)
    requires |w.incoming| < 2 + PK_LEN + SS_LEN
    ensures Client.Initiate(w, cfg, enc).exit == 1
  {
    ClientTranscript(w, cfg, enc);
  }

  /** With `--corrupt=ct` the key is used as received, so the client's own
      SS is the one encapsulated against the peer's key; only the CT sent
      differs from the encapsulated one, in exactly one byte. */
  lemma CorruptCtKeepsSecret(w: Wire, cfg: Config, enc: Encaps)
    requires cfg.corrupt == CorruptCt
    ensures var r := Client.Initiate(w, cfg, enc);
      r.exit != 1 ==>
        && r.ssClient == enc(r.pk).ss
        && r.ctSent == Client.Flipped(enc(r.pk).ct, Client.FlipIndex(cfg.flipIndex, CT_LEN))
  {
    ClientTranscript(w, cfg, enc);
  }

  /** With `--corrupt=pk` the CT is sent as encapsulated, against the
      received key with one byte flipped. */
  lemma CorruptPkChangesKey(w: Wire, cfg: Config, enc: Encaps)
    requires cfg.corrupt == CorruptPk
    ensures var r := Client.Initiate(w, cfg, enc);
      r.exit != 1 ==>
        var used := Client.Flipped(r.pk, Client.FlipIndex(cfg.flipIndex, PK_LEN));
        && r.ssClient == enc(used).ss && r.ctSent == enc(used).ct
  {
    ClientTranscript(w, cfg, enc);
  }

  /** A run reaches the comparison whenever the peer sends a PK message and
      an SS, transfers fail only by interruption and every scheduled send
      makes progress, and encapsulation succeeds; its status is then 0 or 3
      by the comparison alone. */
  lemma ClientCompletes(w: Wire, cfg: Config, enc: Encaps, pk: PublicKey, ss: SharedSecret, rest: seq<byte>)
    requires w.incoming == PkHeader() + pk + ss + rest
    requires RecvRetryable(w.recvPlan) && SendRetryable(w.sendPlan, true)
    requires enc(Client.UsedPk(pk, cfg)).status == 0
    ensures var r := Client.Initiate(w, cfg, enc);
      var e := enc(Client.UsedPk(pk, cfg));
      && r.exit == Client.CompareSecrets(e.ss, ss)
      && r.pk == pk && r.ssClient == e.ss && r.ssServer == ss
      && r.ctSent == Client.UsedCt(e.ct, cfg)
      && r.wire.outgoing == w.outgoing + CtFrame(cfg.sendCtHeader, Client.UsedCt(e.ct, cfg))
  {
    assert w.incoming == PkHeader() + pk + (ss + rest);
    FetchPkSucceeds(w, pk, ss + rest);
    var f := Client.FetchPk(w);
    var e := enc(Client.UsedPk(pk, cfg));
    FinishSucceeds(f.wire, cfg.sendCtHeader, pk, e.ss, Client.UsedCt(e.ct, cfg), ss, rest);
  }

  /** A PK message at the head of the stream is read in full. */
  lemma FetchPkSucceeds(w: Wire, pk: PublicKey, tail: seq<byte>)
    requires w.incoming == PkHeader() + pk + tail && RecvRetryable(w.recvPlan)
    ensures var f := Client.FetchPk(w);
      && f.rc == 0 && f.data == pk && f.wire.incoming == tail
      && RecvRetryable(f.wire.recvPlan)
      && f.wire.outgoing == w.outgoing && f.wire.sendPlan == w.sendPlan
  {
    RecvAllSucceeds(w, 2);
    RecvAllLeavesRetryable(w, 2);
    var h := RecvAll(w, 2);
    RecvAllExact(w, 2);
    assert w.incoming[..2] == PkHeader();
    assert h.wire.incoming == pk + tail;
    RecvAllSucceeds(h.wire, PK_LEN);
    RecvAllLeavesRetryable(h.wire, PK_LEN);
    RecvAllExact(h.wire, PK_LEN);
    assert (pk + tail)[..PK_LEN] == pk;
    assert (pk + tail)[PK_LEN..] == tail;
  }

  /** With the SS at the head of the stream, sending the CT and reading the
      SS succeed, and the status compares the two secrets. */
  lemma FinishSucceeds(w: Wire, withHeader: bool, pk: PublicKey, ssc: SharedSecret, ct: Ciphertext,
                       ss: SharedSecret, rest: seq<byte>)
    requires w.incoming == ss + rest
    requires RecvRetryable(w.recvPlan) && SendRetryable(w.sendPlan, true)
    ensures var r := Client.Finish(w, withHeader, pk, ssc, ct);
      && r.exit == Client.CompareSecrets(ssc, ss)
      && r.pk == pk && r.ssClient == ssc && r.ssServer == ss && r.ctSent == ct
      && r.wire.outgoing == w.outgoing + CtFrame(withHeader, ct)
  {
    SendCtSucceeds(w, withHeader, ct);
    var s := Client.SendCt(w, withHeader, ct);
    SendCtFrames(w, withHeader, ct);
    RecvAllSucceeds(s.wire, SS_LEN);
    RecvAllFromConsumes(s.wire, SS_LEN, []);
    assert (ss + rest)[..SS_LEN] == ss;
  }

  lemma SendCtSucceeds(w: Wire, withHeader: bool, ct: Ciphertext)
    requires SendRetryable(w.sendPlan, true)
    ensures Client.SendCt(w, withHeader, ct).rc == 0
  {
    if withHeader {
      SendAllSucceeds(w, CtHeader(), true);
      SendAllLeavesRetryable(w, CtHeader(), true);
      SendAllSucceeds(SendAll(w, CtHeader(), true).wire, ct, true);
    } else {
      SendAllSucceeds(w, ct, true);
    }
  }
}
