/**
 The responder of main/mlkem_server.c: its transfer loops, the ciphertext
 receiver that sniffs for an optional length header, and the body of one
 accepted connection, run against a key pair generated once at start-up.
 */
module Server {
  import opened Transport
  import opened Kem
  import opened Framing
  import ReliableIo

  /** What `recv_ct_maybe_hdr(s, ct, expected_len)` computes: a 2-byte peek
      that leaves the bytes pending; when it sees two bytes whose big-endian
      value is `expectedLen` they are consumed as a header, and then
      `expectedLen` bytes are received as the ciphertext. */
  function SniffCt(w: Wire, expectedLen: nat): ReliableIo.Transfer {
    var p := RecvStep(w, 2, true);
    if p.n == 2 && Be16(p.data) == expectedLen then
      var h := ReliableIo.RecvAll(p.wire, 2);
      if h.rc != 0 then ReliableIo.Transfer(-1, [], h.wire)
      else ReliableIo.RecvAll(h.wire, expectedLen)
    else ReliableIo.RecvAll(p.wire, expectedLen)
  }

  lemma SniffCtShape(w: Wire, expectedLen: nat)
    ensures var t := SniffCt(w, expectedLen);
      && (t.rc == 0 || t.rc == -1)
      && |t.data| <= expectedLen
      && (t.rc == 0 ==> |t.data| == expectedLen)
      && t.wire.outgoing == w.outgoing && t.wire.sendPlan == w.sendPlan
  {
    var p := RecvStep(w, 2, true);
    ReliableIo.RecvAllFromConsumes(p.wire, 2, []);
    var h := ReliableIo.RecvAll(p.wire, 2);
    ReliableIo.RecvAllFromConsumes(h.wire, expectedLen, []);
    ReliableIo.RecvAllFromConsumes(p.wire, expectedLen, []);
  }

  /** Whether the CT receiver makes a `recv` that waits (the peek, the
      header read or the CT read): against an initiator that stays open and
      sends nothing more, `recv_ct_maybe_hdr` blocks there for good. */
  predicate SniffCtWaits(w: Wire, expectedLen: nat) {
    var p := RecvStep(w, 2, true);
    if RecvWaits(w, 2) then true
    else if p.n == 2 && Be16(p.data) == expectedLen then
      ReliableIo.RecvAllWaits(p.wire, 2, [])
      || (ReliableIo.RecvAll(p.wire, 2).rc == 0 && ReliableIo.RecvAllWaits(ReliableIo.RecvAll(p.wire, 2).wire, expectedLen, []))
    else ReliableIo.RecvAllWaits(p.wire, expectedLen, [])
  }

  /** `recv_ct_maybe_hdr` on a socket with a receive timeout, against an
      initiator that stays open: a call that would wait fails instead. */
  function SniffCtTimed(w: Wire, expectedLen: nat): ReliableIo.Transfer {
    var p := RecvStepTimed(w, 2, true);
    if p.n == 2 && Be16(p.data) == expectedLen then
      var h := ReliableIo.RecvAllTimed(p.wire, 2);
      if h.rc != 0 then ReliableIo.Transfer(-1, [], h.wire)
      else ReliableIo.RecvAllTimed(h.wire, expectedLen)
    else ReliableIo.RecvAllTimed(p.wire, expectedLen)
  }

  /** How one connection ended; these are the states of the connection
      handler in which it can stop. */
  datatype Outcome = Served | PkSendFailed | CtRecvFailed | DecapsFailed | SsSendFailed

  datatype Session = Session(outcome: Outcome, wire: Wire)

  /** Step 1 of a connection: the PK message, its 2-byte header and then
      the key, as two `send_all` calls; the second is skipped when the first
      fails. */
  function SendPk(w: Wire, pk: PublicKey): ReliableIo.Transfer {
    var a := ReliableIo.SendAll(w, PkHeader(), false);
    if a.rc != 0 then a else ReliableIo.SendAll(a.wire, pk, false)
  }

  /** Steps 2 to 4 of a connection: receive the CT, decapsulate it, send the
      SS; each step runs only when the one before it succeeded. */
  function Reply(w: Wire, sk: SecretKey, dec: Decaps): Session {
    var c := SniffCt(w, CT_LEN);
    if c.rc != 0 then Session(CtRecvFailed, c.wire) else
    SniffCtShape(w, CT_LEN);
    var d := dec(c.data, sk);
    if d.status != 0 then Session(DecapsFailed, c.wire) else
    var e := ReliableIo.SendAll(c.wire, d.ss, false);
    if e.rc != 0 then Session(SsSendFailed, e.wire) else Session(Served, e.wire)
  }

  /** What the body of the accept loop does with one connection, apart from
      the final `shutdown` and `close`. */
  function Serve(w: Wire, pk: PublicKey, sk: SecretKey, dec: Decaps): Session {
    var a := SendPk(w, pk);
    if a.rc != 0 then Session(PkSendFailed, a.wire) else Reply(a.wire, sk, dec)
  }

  /** `recv_all` (server copy): loops until `len` bytes are in `buf`; fails
      when the peer closes or on an error other than EINTR. */
  method RecvAll(sock: Socket, buf: array<byte>, len: nat) returns (rc: int)
    requires len <= buf.Length
    modifies sock, buf
    ensures var t := ReliableIo.RecvAll(old(sock.State()), len);
      && rc == t.rc && sock.State() == t.wire && |t.data| <= len
      && buf[..|t.data|] == t.data && buf[|t.data|..] == old(buf[|t.data|..])
    ensures sock.isShutDown == old(sock.isShutDown) && sock.isClosed == old(sock.isClosed)
  {
    ghost var w0, orig := sock.State(), buf[..];
    var got := 0;
    ReliableIo.RecvLoopStart(w0, len, orig);
    while got < len
      invariant ReliableIo.Receiving(w0, len, orig, sock.State(), buf[..], got)
      invariant sock.isShutDown == old(sock.isShutDown) && sock.isClosed == old(sock.isClosed)
      decreases |sock.recvPlan|, len - got
    {
      ghost var before, b0 := sock.State(), buf[..];
      var n, errno := sock.Recv(buf, got, len - got, false);
      ReliableIo.RecvLoopStep(w0, len, orig, before, b0, got, n, errno, sock.State(), buf[..]);
      if n == 0 || (n < 0 && errno != EINTR) {
        return -1;
      }
      if n < 0 {
        continue;
      }
      got := got + n;
    }
    ReliableIo.RecvLoopDone(w0, len, orig, sock.State(), buf[..]);
    return 0;
  }

  /** `send_all` (server copy): loops until `len` bytes of `buf` are out; a
      `send` returning 0 is retried, an error other than EINTR fails. */
  method SendAll(sock: Socket, buf: array<byte>, len: nat) returns (rc: int)
    requires len <= buf.Length
    modifies sock
    ensures var t := ReliableIo.SendAll(old(sock.State()), buf[..len], false);
      rc == t.rc && sock.State() == t.wire
    ensures sock.isShutDown == old(sock.isShutDown) && sock.isClosed == old(sock.isClosed)
  {
    var sent := 0;
    while sent < len
      invariant sent <= len
      invariant ReliableIo.SendAllFrom(sock.State(), buf[..len], sent, false)
             == ReliableIo.SendAll(old(sock.State()), buf[..len], false)
      invariant sock.isShutDown == old(sock.isShutDown) && sock.isClosed == old(sock.isClosed)
      decreases |sock.sendPlan|, len - sent
    {
      assert buf[sent..sent + (len - sent)] == buf[..len][sent..];
      var n, errno := sock.Send(buf, sent, len - sent);
      if n < 0 {
        if errno == EINTR {
          continue;
        }
        return -1;
      }
      sent := sent + n;
    }
    return 0;
  }

  /** `recv_ct_maybe_hdr`. */
  method RecvCtMaybeHdr(sock: Socket, ct: array<byte>, expectedLen: nat) returns (rc: int)
    requires expectedLen <= ct.Length && expectedLen < 0x1_0000
    modifies sock, ct
    ensures var t := SniffCt(old(sock.State()), expectedLen);
      && rc == t.rc && sock.State() == t.wire && |t.data| <= expectedLen
      && ct[..|t.data|] == t.data && ct[|t.data|..] == old(ct[|t.data|..])
    ensures sock.isShutDown == old(sock.isShutDown) && sock.isClosed == old(sock.isClosed)
  {
    var peek := new byte[2];
    var n, _ := sock.Recv(peek, 0, 2, true);
    if n == 2 {
      var be := (peek[0] as int) * 256 + (peek[1] as int);
      assert peek[..2] == RecvStep(old(sock.State()), 2, true).data;
      assert be == Be16(peek[..2]);
      if be == expectedLen {
        var hdr := new byte[2];
        var r := RecvAll(sock, hdr, 2);
        if r != 0 {
          return -1;
        }
      }
    }
    rc := RecvAll(sock, ct, expectedLen);
  }

  /** The responder: the process-wide key pair (`g_pk_global`,
      `g_sk_global`, filled once by `crypto_kem_keypair` before the server
      task starts) and the decapsulation it uses. */
  class Responder {
    const pk: array<byte>
    const sk: array<byte>
    const dec: Decaps
    /** The contents of `pk` and `sk`, which nothing writes after start-up. */
    ghost const pkVal: PublicKey
    ghost const skVal: SecretKey

    ghost predicate Valid()
      reads this, pk, sk
    {
      pk.Length == PK_LEN && sk.Length == SK_LEN && pk[..] == pkVal && sk[..] == skVal
    }

    constructor (pkBytes: PublicKey, skBytes: SecretKey, decaps: Decaps)
      ensures Valid() && fresh(pk) && fresh(sk)
      ensures pkVal == pkBytes && skVal == skBytes && dec == decaps
    {
      pk := new byte[PK_LEN](i => if 0 <= i < PK_LEN then pkBytes[i] else 0);
      sk := new byte[SK_LEN](i => if 0 <= i < SK_LEN then skBytes[i] else 0);
      dec := decaps;
      pkVal, skVal := pkBytes, skBytes;
    }

    /** Step 1 of a connection: the 2-byte big-endian header, then the key,
        the second `send_all` skipped when the first fails. */
    method SendPkMessage(sock: Socket) returns (rc: int)
      requires Valid()
      modifies sock
      ensures var a := SendPk(old(sock.State()), pkVal);
        rc == a.rc && sock.State() == a.wire
      ensures sock.isShutDown == old(sock.isShutDown) && sock.isClosed == old(sock.isClosed)
    {
      var pkHdr := new byte[2];
      pkHdr[0], pkHdr[1] := (PK_LEN / 256) as byte, (PK_LEN % 256) as byte;
      assert pkHdr[..2] == PkHeader();
      rc := SendAll(sock, pkHdr, 2);
      if rc != 0 {
        return;
      }
      assert pk[..PK_LEN] == pk[..];
      rc := SendAll(sock, pk, PK_LEN);
    }

    /** Steps 2 to 4 of a connection: receive the CT, decapsulate it with
        the secret key, send the SS; a failure skips the steps after it. */
    method ReplyCt(sock: Socket) returns (outcome: Outcome)
      requires Valid()
      modifies sock
      ensures var r := Reply(old(sock.State()), skVal, dec);
        outcome == r.outcome && sock.State() == r.wire
      ensures sock.isShutDown == old(sock.isShutDown) && sock.isClosed == old(sock.isClosed)
    {
      ghost var w := sock.State();
      SniffCtShape(w, CT_LEN);
      var ct := new byte[CT_LEN];
      var r := RecvCtMaybeHdr(sock, ct, CT_LEN);
      if r != 0 {
        return CtRecvFailed;
      }
      assert ct[..] == SniffCt(w, CT_LEN).data;
      var d := dec(ct[..], sk[..]);
      if d.status != 0 {
        return DecapsFailed;
      }
      var ss := new byte[SS_LEN](i => if 0 <= i < SS_LEN then d.ss[i] else 0);
      assert ss[..SS_LEN] == d.ss;
      r := SendAll(sock, ss, SS_LEN);
      outcome := if r != 0 then SsSendFailed else Served;
    }

    /** One pass of the accept loop's body for the accepted socket `sock`:
        send the PK with its header, then reply to the CT; a failure skips
        the rest, and the socket is always shut down and closed. */
    method Handshake(sock: Socket, ghost expected: Session) returns (outcome: Outcome)
      requires Valid() && expected == Serve(sock.State(), pkVal, skVal, dec)
      modifies sock
      ensures Session(outcome, sock.State()) == expected
      ensures sock.isShutDown && sock.isClosed
    {
      var r := SendPkMessage(sock);
      if r != 0 {
        outcome := PkSendFailed;
      } else {
        outcome := ReplyCt(sock);
      }
      sock.Shutdown();
      sock.Close();
    }

    /** The serial accept loop over the connections it accepts, in order:
        each is served to completion with the same key pair before the next. */
    method ServeConnections(conns: seq<Socket>) returns (outcomes: seq<Outcome>)
      requires Valid()
      requires forall i, j :: 0 <= i < j < |conns| ==> conns[i] != conns[j]
      modifies set i | 0 <= i < |conns| :: conns[i]
      ensures |outcomes| == |conns|
      ensures forall i :: 0 <= i < |conns| ==>
        var r := Serve(old(conns[i].State()), pkVal, skVal, dec);
        outcomes[i] == r.outcome && conns[i].State() == r.wire && conns[i].isShutDown && conns[i].isClosed
      ensures Valid()
    {
      ghost var ws := seq(|conns|, k requires 0 <= k < |conns| reads set j | 0 <= j < |conns| :: conns[j] => conns[k].State());
      ghost var es := seq(|conns|, k requires 0 <= k < |conns| => Serve(ws[k], pkVal, skVal, dec));
      outcomes := [];
      var i := 0;
      while i < |conns|
        invariant 0 <= i <= |conns| && |outcomes| == i
        invariant forall k :: 0 <= k < i ==>
          Session(outcomes[k], conns[k].State()) == es[k] && conns[k].isShutDown && conns[k].isClosed
        invariant forall k :: i <= k < |conns| ==> conns[k].State() == ws[k]
      {
        var o := Handshake(conns[i], es[i]);
        outcomes := outcomes + [o];
        i := i + 1;
      }
    }
  }
}
