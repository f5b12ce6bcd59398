/**
 The initiator in host_test/mlkem_client.c, from the point where its socket
 is connected: read the PK message, optionally flip one bit of the key or
 of the ciphertext, encapsulate, send the CT (with or without its header),
 read the responder's SS and compare it with its own.
 */
module Client {
  import opened Transport
  import opened Kem
  import opened Framing
  import opened ClientArgs
  import ReliableIo

  // ---------------------------------------------------------------------
  // Corruption

  /** `b ^ 0x01`: the same byte with its lowest bit inverted. */
  function Xor1(b: byte): (r: byte)
    ensures r / 2 == b / 2 && r % 2 != b % 2
  {
    if b % 2 == 0 then b + 1 else b - 1
  }

  /** `s` with the byte at `i` XORed with 0x01, every other byte kept. */
  function Flipped(s: seq<byte>, i: nat): (r: seq<byte>)
    requires i < |s|
    ensures |r| == |s| && r[i] == Xor1(s[i]) && r[i] != s[i]
    ensures forall j :: 0 <= j < |s| && j != i ==> r[j] == s[j]
  {
    s[i := Xor1(s[i])]
  }

  /** C's `a % n` for `n > 0`: the quotient is truncated toward zero, so a
      non-zero remainder has the sign of `a`. */
  function CRem(a: int, n: int): (r: int)
    requires n > 0
    ensures -n < r < n
    ensures a >= 0 ==> r == a % n
    ensures r == 0 || (r < 0 <==> a < 0)
  {
    if a >= 0 then a % n else -((-a) % n)
  }

  /** The index `flip_index % N` as the client computes it. */
  function FlipIndexAsWritten(flip: int, n: int): int
    requires n > 0
  {
    CRem(flip, n)
  }

  /** With `--flip-byte=-1` the index the client computes is -1, outside
      both the key and the ciphertext, so `pk[idx] ^= 0x01` writes before
      the array. */
  lemma NegativeFlipOutOfBounds()
    ensures FlipIndexAsWritten(-1, PK_LEN) == -1
    ensures FlipIndexAsWritten(-1, CT_LEN) == -1
  {
  }

  /** The byte that is flipped: `flip` reduced into `[0, n)`, congruent to
      it modulo `n`, and equal to the client's index whenever that one is
      in bounds. */
  function FlipIndex(flip: int, n: int): (i: nat)
    requires n > 0
    ensures i < n && (flip - i) % n == 0
    ensures flip >= 0 ==> i == FlipIndexAsWritten(flip, n)
  {
    MultipleModZero(n, flip / n);
    assert flip - flip % n == n * (flip / n);
    flip % n
  }

  lemma MultipleModZero(n: int, q: int)
    requires n > 0
    ensures (n * q) % n == 0
  {
    var d, r := (n * q) / n, (n * q) % n;
    var e := q - d;
    assert n * e == r;
  }

  /** Where the client's index into the key is in bounds it is the byte
      flipped here; where it is negative, the byte flipped here is that
      index plus the length. */
  lemma FlipIndexWrapsPk(flip: int)
    ensures FlipIndexAsWritten(flip, PK_LEN) >= 0 ==> FlipIndex(flip, PK_LEN) == FlipIndexAsWritten(flip, PK_LEN)
    ensures FlipIndexAsWritten(flip, PK_LEN) < 0 ==> FlipIndex(flip, PK_LEN) == FlipIndexAsWritten(flip, PK_LEN) + PK_LEN
  {
    if flip < 0 {
      var q, m := (-flip) / PK_LEN, (-flip) % PK_LEN;
      assert -flip == PK_LEN * q + m;
      if m > 0 {
        assert flip == PK_LEN * (-q - 1) + (PK_LEN - m);
      } else {
        assert flip == PK_LEN * (-q);
      }
    }
  }

  /** The same for the index into the ciphertext. */
  lemma FlipIndexWrapsCt(flip: int)
    ensures FlipIndexAsWritten(flip, CT_LEN) >= 0 ==> FlipIndex(flip, CT_LEN) == FlipIndexAsWritten(flip, CT_LEN)
    ensures FlipIndexAsWritten(flip, CT_LEN) < 0 ==> FlipIndex(flip, CT_LEN) == FlipIndexAsWritten(flip, CT_LEN) + CT_LEN
  {
    if flip < 0 {
      var q, m := (-flip) / CT_LEN, (-flip) % CT_LEN;
      assert -flip == CT_LEN * q + m;
      if m > 0 {
        assert flip == CT_LEN * (-q - 1) + (CT_LEN - m);
      } else {
        assert flip == CT_LEN * (-q);
      }
    }
  }

  /** The key passed to `crypto_kem_enc`: the received one, or with
      `--corrupt=pk` the received one with one bit flipped. */
  function UsedPk(pk: PublicKey, cfg: Config): (k: PublicKey)
    ensures cfg.corrupt != CorruptPk ==> k == pk
    ensures cfg.corrupt == CorruptPk ==> k == Flipped(pk, FlipIndex(cfg.flipIndex, PK_LEN))
  {
    if cfg.corrupt == CorruptPk then Flipped(pk, FlipIndex(cfg.flipIndex, PK_LEN)) else pk
  }

  /** The ciphertext sent: the encapsulated one, or with `--corrupt=ct` the
      encapsulated one with one bit flipped. */
  function UsedCt(ct: Ciphertext, cfg: Config): (c: Ciphertext)
    ensures cfg.corrupt != CorruptCt ==> c == ct
    ensures cfg.corrupt == CorruptCt ==> c == Flipped(ct, FlipIndex(cfg.flipIndex, CT_LEN))
  {
    if cfg.corrupt == CorruptCt then Flipped(ct, FlipIndex(cfg.flipIndex, CT_LEN)) else ct
  }

  /** `a[i] ^= 0x01` on the key or ciphertext buffer. */
  method FlipByte(a: array<byte>, i: nat)
    requires i < a.Length
    modifies a
    ensures a[..] == Flipped(old(a[..]), i)
  {
    a[i] := Xor1(a[i]);
  }

  // ---------------------------------------------------------------------
  // What the client does, as a function of the connection

  /** `memcmp(ss_client, ss_server, 32) == 0 ? 0 : 3`. */
  function CompareSecrets(mine: seq<byte>, theirs: seq<byte>): (code: int)
    ensures code == 0 <==> mine == theirs
    ensures code == 3 <==> mine != theirs
  {
    if mine == theirs then 0 else 3
  }

  /** Reading the PK message: the 2-byte header, which must decode to 1184,
      then the key; a wrong header fails before the key is read. */
  function FetchPk(w: Wire): (t: ReliableIo.Transfer)
    ensures t.rc == 0 || t.rc == -1
    ensures t.rc == 0 ==> |t.data| == PK_LEN
    ensures t.wire.outgoing == w.outgoing && t.wire.sendPlan == w.sendPlan
  {
    var h := ReliableIo.RecvAll(w, 2);
    ReliableIo.RecvAllFromConsumes(w, 2, []);
    if h.rc != 0 || Be16(h.data) != PK_LEN then ReliableIo.Transfer(-1, [], h.wire)
    else
      ReliableIo.RecvAllFromConsumes(h.wire, PK_LEN, []);
      ReliableIo.RecvAll(h.wire, PK_LEN)
  }

  /** Sending the CT: with the header, two `send_all` calls (the second
      skipped when the first fails); without, one. */
  function SendCt(w: Wire, withHeader: bool, ct: Ciphertext): ReliableIo.Transfer {
    if withHeader then
      var a := ReliableIo.SendAll(w, CtHeader(), true);
      if a.rc != 0 then a else ReliableIo.SendAll(a.wire, ct, true)
    else ReliableIo.SendAll(w, ct, true)
  }

  /** How a run ended: the exit status, the connection afterwards, and what
      the client got that far: the key it received, its own SS and the CT
      it sent (once encapsulation succeeded) and the SS it read (once that
      read succeeded); empty where a step was not reached. */
  datatype ClientRun = ClientRun(
    exit: int, wire: Wire,
    pk: seq<byte>, ssClient: seq<byte>, ctSent: seq<byte>, ssServer: seq<byte>)

  /** Send the CT `ct`, read the SS and compare it with `ss`. */
  function Finish(w: Wire, withHeader: bool, pk: PublicKey, ss: SharedSecret, ct: Ciphertext): ClientRun {
    var s := SendCt(w, withHeader, ct);
    if s.rc != 0 then ClientRun(1, s.wire, pk, ss, ct, [])
    else
      var r := ReliableIo.RecvAll(s.wire, SS_LEN);
      if r.rc != 0 then ClientRun(1, r.wire, pk, ss, ct, [])
      else ClientRun(CompareSecrets(ss, r.data), r.wire, pk, ss, ct, r.data)
  }

  /** Encapsulate, send the CT, read the SS and compare. */
  function Exchange(w: Wire, cfg: Config, enc: Encaps, pk: PublicKey): ClientRun {
    var e := enc(UsedPk(pk, cfg));
    if e.status != 0 then ClientRun(1, w, pk, [], [], [])
    else Finish(w, cfg.sendCtHeader, pk, e.ss, UsedCt(e.ct, cfg))
  }

  /** The body of `main` after the arguments are parsed and the socket is
      connected, apart from the final `close`. */
  function Initiate(w: Wire, cfg: Config, enc: Encaps): ClientRun {
    var f := FetchPk(w);
    if f.rc != 0 then ClientRun(1, f.wire, [], [], [], [])
    else Exchange(f.wire, cfg, enc, f.data)
  }

  // ---------------------------------------------------------------------
  // The program

  /** `recv_all` (client copy): loops until `len` bytes are in `buf`; fails
      when the peer closes or on an error other than EINTR. */
  method RecvAll(sock: Socket, buf: array<byte>, len: nat) returns (rc: int)
    requires len <= buf.Length
    modifies sock, buf
    ensures var t := ReliableIo.RecvAll(old(sock.State()), len);
      && rc == t.rc && sock.State() == t.wire && |t.data| <= len
      && buf[..|t.data|] == t.data && buf[|t.data|..] == old(buf[|t.data|..])
    ensures sock.isClosed == old(sock.isClosed)
  {
    ghost var w0, orig := sock.State(), buf[..];
    var got := 0;
    ReliableIo.RecvLoopStart(w0, len, orig);
    while got < len
      invariant ReliableIo.Receiving(w0, len, orig, sock.State(), buf[..], got)
      invariant sock.isClosed == old(sock.isClosed)
      decreases |sock.recvPlan|, len - got
    {
      ghost var before, b0 := sock.State(), buf[..];
      var n, errno := sock.Recv(buf, got, len - got, false);
      ReliableIo.RecvLoopStep(w0, len, orig, before, b0, got, n, errno, sock.State(), buf[..]);
      if n == 0 || (n < 0 && errno != EINTR) {
        return -1;
      }
      if n < 0 {
        continue;
      }
      got := got + n;
    }
    ReliableIo.RecvLoopDone(w0, len, orig, sock.State(), buf[..]);
    return 0;
  }

  /** `send_all` (client copy): loops until `len` bytes of `buf` are out;
      an error other than EINTR fails, and so does a `send` that takes
      nothing. */
  method SendAll(sock: Socket, buf: array<byte>, len: nat) returns (rc: int)
    requires len <= buf.Length
    modifies sock
    ensures var t := ReliableIo.SendAll(old(sock.State()), buf[..len], true);
      rc == t.rc && sock.State() == t.wire
    ensures sock.isClosed == old(sock.isClosed)
  {
    var sent := 0;
    while sent < len
      invariant sent <= len
      invariant ReliableIo.SendAllFrom(sock.State(), buf[..len], sent, true)
             == ReliableIo.SendAll(old(sock.State()), buf[..len], true)
      invariant sock.isClosed == old(sock.isClosed)
      decreases |sock.sendPlan|, len - sent
    {
      assert buf[sent..sent + (len - sent)] == buf[..len][sent..];
      var n, errno := sock.Send(buf, sent, len - sent);
      if n < 0 {
        if errno == EINTR {
          continue;
        }
        return -1;
      }
      if n == 0 {
        return -1;
      }
      sent := sent + n;
    }
    return 0;
  }

  /** Read the PK message into `pk`. */
  method ReceivePk(sock: Socket, pk: array<byte>) returns (rc: int)
    requires pk.Length == PK_LEN
    modifies sock, pk
    ensures var f := FetchPk(old(sock.State()));
      rc == f.rc && sock.State() == f.wire && (rc == 0 ==> pk[..] == f.data)
    ensures sock.isClosed == old(sock.isClosed)
  {
    ghost var w := sock.State();
    var hdr := new byte[2];
    rc := RecvAll(sock, hdr, 2);
    ReliableIo.RecvAllFromConsumes(w, 2, []);
    if rc != 0 {
      return -1;
    }
    assert hdr[..] == hdr[..2];
    var pkLen := (hdr[0] as int) * 256 + (hdr[1] as int);
    if pkLen != PK_LEN {
      return -1;
    }
    rc := RecvAll(sock, pk, PK_LEN);
    ghost var h := ReliableIo.RecvAll(w, 2);
    ReliableIo.RecvAllFromConsumes(h.wire, PK_LEN, []);
    assert pk[..] == pk[..PK_LEN];
  }

  /** Send the CT framed as configured. */
  method TransmitCt(sock: Socket, withHeader: bool, ct: array<byte>) returns (rc: int)
    requires ct.Length == CT_LEN
    modifies sock
    ensures rc == SendCt(old(sock.State()), withHeader, ct[..]).rc
    ensures sock.State() == SendCt(old(sock.State()), withHeader, ct[..]).wire
    ensures sock.isClosed == old(sock.isClosed)
  {
    assert ct[..CT_LEN] == ct[..];
    if withHeader {
      var ctHdr := new byte[2];
      ctHdr[0], ctHdr[1] := (CT_LEN / 256) as byte, (CT_LEN % 256) as byte;
      assert ctHdr[..2] == CtHeader();
      rc := SendAll(sock, ctHdr, 2);
      if rc != 0 {
        return;
      }
      rc := SendAll(sock, ct, CT_LEN);
    } else {
      rc := SendAll(sock, ct, CT_LEN);
    }
  }

  /** Encapsulate against the received key `pk` (flipped first with
      `--corrupt=pk`), send the CT, read the SS and compare. */
  method ExchangeKeys(sock: Socket, cfg: Config, enc: Encaps, pk: array<byte>) returns (exit: int)
    requires pk.Length == PK_LEN
    modifies sock, pk
    ensures var r := Exchange(old(sock.State()), cfg, enc, old(pk[..]));
      exit == r.exit && sock.State() == r.wire
    ensures sock.isClosed == old(sock.isClosed)
  {
    ghost var received := pk[..];
    if cfg.corrupt == CorruptPk {
      FlipByte(pk, FlipIndex(cfg.flipIndex, PK_LEN));
    }
    assert pk[..] == UsedPk(received, cfg);
    var e := enc(pk[..]);
    if e.status != 0 {
      return 1;
    }
    var ct := new byte[CT_LEN](i => if 0 <= i < CT_LEN then e.ct[i] else 0);
    var ssClient := new byte[SS_LEN](i => if 0 <= i < SS_LEN then e.ss[i] else 0);
    assert ct[..] == e.ct && ssClient[..] == e.ss;
    if cfg.corrupt == CorruptCt {
      FlipByte(ct, FlipIndex(cfg.flipIndex, CT_LEN));
    }
    assert ct[..] == UsedCt(e.ct, cfg);
    exit := SendAndCompare(sock, cfg.sendCtHeader, ct, ssClient, received);
  }

  /** Send the CT in `ct`, read the responder's SS and compare it with the
      one in `ssClient`. */
  method SendAndCompare(sock: Socket, withHeader: bool, ct: array<byte>, ssClient: array<byte>, ghost pk: PublicKey)
    returns (exit: int)
    requires ct.Length == CT_LEN && ssClient.Length == SS_LEN
    modifies sock
    ensures var r := Finish(old(sock.State()), withHeader, pk, ssClient[..], ct[..]);
      exit == r.exit && sock.State() == r.wire
    ensures sock.isClosed == old(sock.isClosed)
  {
    var rc := TransmitCt(sock, withHeader, ct);
    if rc != 0 {
      return 1;
    }
    ghost var afterCt := sock.State();
    var ssServer := new byte[SS_LEN];
    rc := RecvAll(sock, ssServer, SS_LEN);
    if rc != 0 {
      return 1;
    }
    ReliableIo.RecvAllFromConsumes(afterCt, SS_LEN, []);
    assert ssServer[..] == ssServer[..SS_LEN];
    exit := if ssClient[..] == ssServer[..] then 0 else 3;
  }

  /** The handshake on the connected socket `sock`, which is closed on
      every path. */
  method Handshake(sock: Socket, cfg: Config, enc: Encaps) returns (exit: int)
    modifies sock
    ensures var r := Initiate(old(sock.State()), cfg, enc);
      exit == r.exit && sock.State() == r.wire
    ensures sock.isClosed
  {
    label closeSock: {
      var pk := new byte[PK_LEN];
      var rc := ReceivePk(sock, pk);
      if rc != 0 {
        exit := 1;
        break closeSock;
      }
      exit := ExchangeKeys(sock, cfg, enc, pk);
    }
    sock.Close();
  }

  /** `main`: parse the arguments (status 2 on a usage error, before any
      connection is used), then run the handshake on the connected socket
      `sock`.  `enc` is `crypto_kem_enc`. */
  method RunClient(argv: seq<string>, sock: Socket, enc: Encaps) returns (exit: int)
    modifies sock
    ensures ParseArgs(argv).None? ==>
      exit == 2 && sock.State() == old(sock.State()) && sock.isClosed == old(sock.isClosed)
    ensures ParseArgs(argv).Some? ==>
      var r := Initiate(old(sock.State()), ParseArgs(argv).value, enc);
      exit == r.exit && sock.State() == r.wire && sock.isClosed
  {
    var ok, cfg := ParseCommandLine(argv);
    if !ok {
      return 2;
    }
    exit := Handshake(sock, cfg, enc);
  }
}
