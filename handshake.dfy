/**
 The two programs together.  Each peer reads what the other writes: the
 responder's stream is the initiator's CT frame, and the initiator's stream
 is the responder's PK message followed by whatever the responder sent
 next.  The CT the initiator sends depends only on the key it received and
 its options, so both streams are fixed before either side runs and the
 runs can be composed.  Transports may cut transfers short and interrupt
 calls, but fail only by interruption.
 */
module Handshake {
  import opened Transport
  import opened Kem
  import opened Framing
  import opened ClientArgs
  import opened ReliableIo
  import Server
  import ServerProps
  import Client
  import ClientProps

  /** The CT the initiator sends for the key `pk` under `cfg`. */
  function CtFor(pk: PublicKey, cfg: Config, enc: Encaps): Ciphertext {
    Client.UsedCt(enc(Client.UsedPk(pk, cfg)).ct, cfg)
  }

  /** The receive schedules let every requested byte through in the end,
      and the responder's 2-byte peek is not cut short. */
  predicate Reliable(server: Wire, client: Wire) {
    && RecvRetryable(server.recvPlan) && SendRetryable(server.sendPlan, false)
    && (server.recvPlan == [] || (server.recvPlan[0].Deliver? && server.recvPlan[0].limit >= 2))
    && RecvRetryable(client.recvPlan) && SendRetryable(client.sendPlan, true)
  }

  /** A whole handshake that gets as far as decapsulation.  The responder
      serves the connection, the initiator writes exactly the frame the
      responder read, and the initiator's status is 0 or 3 by comparing
      its own SS with the one the responder decapsulated. */
  lemma HandshakeCompletes(pk: PublicKey, sk: SecretKey, dec: Decaps, enc: Encaps, cfg: Config,
                           server: Wire, client: Wire)
    requires Reliable(server, client)
    requires enc(Client.UsedPk(pk, cfg)).status == 0
    requires server.incoming == CtFrame(cfg.sendCtHeader, CtFor(pk, cfg, enc)) && server.outgoing == []
    requires !cfg.sendCtHeader ==> CtFor(pk, cfg, enc)[..2] != CtHeader()
    requires dec(CtFor(pk, cfg, enc), sk).status == 0
    ensures var s := Server.Serve(server, pk, sk, dec);
      && s.outcome == Server.Served
      && s.wire.outgoing == ServerProps.PkMessage(pk) + dec(CtFor(pk, cfg, enc), sk).ss
    ensures var s := Server.Serve(server, pk, sk, dec);
            var c := Client.Initiate(client.(incoming := s.wire.outgoing), cfg, enc);
      && c.wire.outgoing == client.outgoing + server.incoming
      && c.exit == Client.CompareSecrets(enc(Client.UsedPk(pk, cfg)).ss, dec(CtFor(pk, cfg, enc), sk).ss)
      && (c.exit == 0 || c.exit == 3)
  {
    var ct := CtFor(pk, cfg, enc);
    ServerProps.ServeSucceeds(server, pk, sk, dec, cfg.sendCtHeader, ct);
    var s := Server.Serve(server, pk, sk, dec);
    var ss := dec(ct, sk).ss;
    assert s.wire.outgoing == PkHeader() + pk + ss + [];
    ClientProps.ClientCompletes(client.(incoming := s.wire.outgoing), cfg, enc, pk, ss, []);
  }

  /** Without corruption, and with a KEM whose decapsulation undoes its
      encapsulation for this key pair, the handshake ends with status 0:
      both sides hold the same SS. */
  lemma HonestHandshakeMatches(pk: PublicKey, sk: SecretKey, dec: Decaps, enc: Encaps, cfg: Config,
                               server: Wire, client: Wire)
    requires Agrees(enc, dec, pk, sk) && cfg.corrupt == CorruptNone
    requires Reliable(server, client)
    requires enc(pk).status == 0
    requires server.incoming == CtFrame(cfg.sendCtHeader, enc(pk).ct) && server.outgoing == []
    requires !cfg.sendCtHeader ==> enc(pk).ct[..2] != CtHeader()
    ensures var s := Server.Serve(server, pk, sk, dec);
            var c := Client.Initiate(client.(incoming := s.wire.outgoing), cfg, enc);
      s.outcome == Server.Served && c.exit == 0
  {
    assert CtFor(pk, cfg, enc) == enc(pk).ct;
    HandshakeCompletes(pk, sk, dec, enc, cfg, server, client);
  }

  /** With `--corrupt=ct` or `--corrupt=pk`, when decapsulation still
      succeeds, the handshake completes and the status reports whether the
      secrets differ: 3 exactly when they do, never a transport failure.
      Whether they differ is up to the KEM and is not claimed here. */
  lemma CorruptedHandshakeReports(pk: PublicKey, sk: SecretKey, dec: Decaps, enc: Encaps, cfg: Config,
                                  server: Wire, client: Wire)
    requires cfg.corrupt != CorruptNone
    requires Reliable(server, client)
    requires enc(Client.UsedPk(pk, cfg)).status == 0
    requires server.incoming == CtFrame(cfg.sendCtHeader, CtFor(pk, cfg, enc)) && server.outgoing == []
    requires !cfg.sendCtHeader ==> CtFor(pk, cfg, enc)[..2] != CtHeader()
    requires dec(CtFor(pk, cfg, enc), sk).status == 0
    ensures var s := Server.Serve(server, pk, sk, dec);
            var c := Client.Initiate(client.(incoming := s.wire.outgoing), cfg, enc);
      && (c.exit == 0 || c.exit == 3)
      && (c.exit == 3 <==> enc(Client.UsedPk(pk, cfg)).ss != dec(CtFor(pk, cfg, enc), sk).ss)
  {
    HandshakeCompletes(pk, sk, dec, enc, cfg, server, client);
  }

  /** Outside the known ambiguity the responder's CT read never waits: the
      whole frame is pending before the read needs it, so every result about
      these handshakes holds as well for an initiator that stays open. */
  lemma ResponderNeverWaits(pk: PublicKey, enc: Encaps, cfg: Config, server: Wire, client: Wire)
    requires Reliable(server, client)
    requires server.incoming == CtFrame(cfg.sendCtHeader, CtFor(pk, cfg, enc))
    requires !cfg.sendCtHeader ==> CtFor(pk, cfg, enc)[..2] != CtHeader()
    ensures !Server.SniffCtWaits(Server.SendPk(server, pk).wire, CT_LEN)
  {
    var ct := CtFor(pk, cfg, enc);
    ServerProps.SendPkTranscript(server, pk);
    var a := Server.SendPk(server, pk);
    assert a.wire == server.(outgoing := a.wire.outgoing, sendPlan := a.wire.sendPlan);
    ServerProps.SniffCtIgnoresSendSide(server, CT_LEN, a.wire.outgoing, a.wire.sendPlan);
    ServerProps.RetryableTail(server.recvPlan);
    if cfg.sendCtHeader {
      assert server.incoming[..2] == CtHeader();
      ServerProps.SniffCtWithHeader(server, CT_LEN);
    } else {
      Be16Injective(server.incoming[..2], CT_LEN);
      ServerProps.SniffCtWithoutHeader(server, CT_LEN);
    }
    ServerProps.SniffCtWaitsIffFails(a.wire, CT_LEN);
  }

  /** When decapsulation fails, the responder sends the PK message and
      nothing more, and the initiator's SS read fails: status 1. */
  lemma DecapsFailureEndsWithStatus1(pk: PublicKey, sk: SecretKey, dec: Decaps, enc: Encaps, cfg: Config,
                                     server: Wire, client: Wire)
    requires Reliable(server, client)
    requires enc(Client.UsedPk(pk, cfg)).status == 0
    requires server.incoming == CtFrame(cfg.sendCtHeader, CtFor(pk, cfg, enc)) && server.outgoing == []
    requires !cfg.sendCtHeader ==> CtFor(pk, cfg, enc)[..2] != CtHeader()
    requires dec(CtFor(pk, cfg, enc), sk).status != 0
    ensures var s := Server.Serve(server, pk, sk, dec);
            var c := Client.Initiate(client.(incoming := s.wire.outgoing), cfg, enc);
      && s.outcome == Server.DecapsFailed
      && s.wire.outgoing == ServerProps.PkMessage(pk)
      && c.exit == 1
  {
    var ct := CtFor(pk, cfg, enc);
    ServerProps.SendPkSucceeds(server, pk);
    ServerProps.SendPkTranscript(server, pk);
    var a := Server.SendPk(server, pk);
    assert a.wire == server.(outgoing := a.wire.outgoing, sendPlan := a.wire.sendPlan);
    ServerProps.SniffCtIgnoresSendSide(server, CT_LEN, a.wire.outgoing, a.wire.sendPlan);
    ServerProps.RetryableTail(server.recvPlan);
    if cfg.sendCtHeader {
      assert server.incoming[..2] == CtHeader();
      ServerProps.SniffCtWithHeader(server, CT_LEN);
      assert server.incoming[2..2 + CT_LEN] == ct;
    } else {
      Be16Injective(server.incoming[..2], CT_LEN);
      ServerProps.SniffCtWithoutHeader(server, CT_LEN);
      assert server.incoming[..CT_LEN] == ct;
    }
    ServerProps.ServeTranscript(server, pk, sk, dec);
    var s := Server.Serve(server, pk, sk, dec);
    ClientProps.ShortStreamFails(client.(incoming := s.wire.outgoing), cfg, enc);
  }

  /** The known ambiguity, end to end, as the programs are written: an
      unheadered CT that begins `0x04 0x40` deadlocks the handshake.  The
      responder sends the PK message, consumes the whole CT and is still
      waiting for two more bytes in its CT read; the initiator, given that
      PK message (all the responder has sent), reads it in full, sends its
      whole CT and waits for the SS.  Neither program sets a receive
      timeout, and each sends more only once its pending read returns, so
      neither read returns, and the responder, which serves one connection
      at a time, never accepts another client. */
  lemma AmbiguousCtDeadlocks(pk: PublicKey, sk: SecretKey, dec: Decaps, enc: Encaps, cfg: Config,
                             server: Wire, client: Wire)
    requires Reliable(server, client)
    requires !cfg.sendCtHeader && enc(Client.UsedPk(pk, cfg)).status == 0
    requires server.incoming == CtFor(pk, cfg, enc) && server.outgoing == []
    requires CtFor(pk, cfg, enc)[..2] == CtHeader()
    ensures var a := Server.SendPk(server, pk);
      && a.rc == 0 && a.wire.outgoing == ServerProps.PkMessage(pk)
      && Server.SniffCtWaits(a.wire, CT_LEN)
    ensures var f := Client.FetchPk(client.(incoming := ServerProps.PkMessage(pk)));
            var s := Client.SendCt(f.wire, false, CtFor(pk, cfg, enc));
      && f.rc == 0 && f.data == pk && s.rc == 0
      && s.wire.outgoing == client.outgoing + server.incoming
      && RecvAllWaits(s.wire, SS_LEN, [])
  {
    var ct := CtFor(pk, cfg, enc);
    ServerProps.SendPkSucceeds(server, pk);
    ServerProps.SendPkTranscript(server, pk);
    var a := Server.SendPk(server, pk);
    assert a.wire == server.(outgoing := a.wire.outgoing, sendPlan := a.wire.sendPlan);
    ServerProps.SniffCtIgnoresSendSide(server, CT_LEN, a.wire.outgoing, a.wire.sendPlan);
    assert ct + [] == server.incoming;
    ServerProps.UnheaderedCtMisread(ct, [], server.recvPlan, server.outgoing, server.sendPlan);
    ServerProps.SniffCtWaitsIffFails(a.wire, CT_LEN);

    var cw := client.(incoming := ServerProps.PkMessage(pk));
    assert cw.incoming == PkHeader() + pk + [];
    ClientProps.FetchPkSucceeds(cw, pk, []);
    var f := Client.FetchPk(cw);
    ClientProps.SendCtSucceeds(f.wire, false, ct);
    ClientProps.SendCtFrames(f.wire, false, ct);
    var t := Client.SendCt(f.wire, false, ct);
    RecvAllPeerClosed(t.wire, SS_LEN);
    RecvAllWaitsIffFails(t.wire, SS_LEN, []);
  }

  /** The same input with the deadlock removed, by a receive timeout on the
      accepted socket: the responder's CT read fails when the timeout
      expires (and fails just as the model's read does for an initiator
      that closes).  The responder then sends no SS and closes, the
      initiator's SS read sees the close and ends with status 1, whatever
      the KEM does, and the accept loop goes on to the next client. */
  lemma AmbiguousCtTimesOut(pk: PublicKey, sk: SecretKey, dec: Decaps, enc: Encaps, cfg: Config,
                            server: Wire, client: Wire)
    requires Reliable(server, client)
    requires !cfg.sendCtHeader && enc(Client.UsedPk(pk, cfg)).status == 0
    requires server.incoming == CtFor(pk, cfg, enc) && server.outgoing == []
    requires CtFor(pk, cfg, enc)[..2] == CtHeader()
    ensures Server.SniffCtTimed(Server.SendPk(server, pk).wire, CT_LEN).rc == -1
    ensures var s := Server.Serve(server, pk, sk, dec);
            var c := Client.Initiate(client.(incoming := s.wire.outgoing), cfg, enc);
      && s.outcome == Server.CtRecvFailed
      && s.wire.outgoing == ServerProps.PkMessage(pk)
      && c.exit == 1
  {
    var ct := CtFor(pk, cfg, enc);
    ServerProps.SendPkSucceeds(server, pk);
    ServerProps.SendPkTranscript(server, pk);
    var a := Server.SendPk(server, pk);
    assert a.wire == server.(outgoing := a.wire.outgoing, sendPlan := a.wire.sendPlan);
    ServerProps.SniffCtIgnoresSendSide(server, CT_LEN, a.wire.outgoing, a.wire.sendPlan);
    assert ct + [] == server.incoming;
    ServerProps.UnheaderedCtMisread(ct, [], server.recvPlan, server.outgoing, server.sendPlan);
    ServerProps.SniffCtTimedLikeClose(a.wire, CT_LEN);
    ServerProps.ServeTranscript(server, pk, sk, dec);
    var s := Server.Serve(server, pk, sk, dec);
    ClientProps.ShortStreamFails(client.(incoming := s.wire.outgoing), cfg, enc);
  }
}
