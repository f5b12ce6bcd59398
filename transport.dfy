/**
 A connected stream socket as the handshake code sees it through `recv` and
 `send`.  The peer's side is abstract: `incoming` holds every byte the peer
 sends on this connection, up to the point where it closes its side or
 stops to wait for this side, that has not been consumed yet, and
 `outgoing` is the log of every byte this side has handed to the transport.
 A `recv` that finds `incoming` empty returns 0, which is what the call does
 once the peer has closed; while the peer is still open the call blocks
 instead.  `RecvWaits` marks those calls, so that a run in which a program
 would block can be told apart from one in which its peer closed.  How many bytes each call moves,
 and whether it is interrupted or fails, is drawn from a finite schedule per
 direction; once a schedule is used up the transport is ideal in that
 direction (a receive gets everything it asks for that the peer has sent, a
 send takes the whole buffer).
 */
module Transport {

  newtype byte = x: int | 0 <= x < 256

  /** The errno value of an interrupted call (Linux and lwIP agree on 4). */
  const EINTR: int := 4

  type Pos = k: int | k > 0 witness 1

  /** What one `recv` call does, when the schedule still has an entry. */
  datatype RecvOutcome =
    | Deliver(limit: Pos)   // returns between 1 and `limit` bytes, as many as are requested and available
    | RecvError(errno: int) // returns -1 and sets errno

  /** What one `send` call does, when the schedule still has an entry. */
  datatype SendOutcome =
    | Accept(limit: nat)    // takes at most `limit` bytes of the buffer (possibly none)
    | SendError(errno: int) // returns -1 and sets errno

  /** The whole observable state of one connection. */
  datatype Wire = Wire(
    incoming: seq<byte>,
    recvPlan: seq<RecvOutcome>,
    outgoing: seq<byte>,
    sendPlan: seq<SendOutcome>)

  /** The result of one `recv` or `send` call: its return value, errno, the
      bytes it delivered (receives only) and the connection afterwards. */
  datatype Step = Step(n: int, errno: int, data: seq<byte>, wire: Wire)

  function Min(a: int, b: int): int { if a <= b then a else b }

  /** One `recv(want)` call; with `peek` (MSG_PEEK) the bytes are returned but
      stay pending. */
  function RecvStep(w: Wire, want: nat, peek: bool): (s: Step)
    ensures s.n >= 0 ==>
      && s.n <= want && s.n <= |w.incoming|
      && s.errno == 0
      && s.data == w.incoming[..s.n]
      && s.wire.incoming == (if peek then w.incoming else w.incoming[s.n..])
    ensures s.n == 0 ==> want == 0 || w.incoming == []
    ensures s.n < 0 ==> s.n == -1 && s.data == [] && s.wire.incoming == w.incoming && w.recvPlan != []
    ensures s.wire.recvPlan == if w.recvPlan == [] then [] else w.recvPlan[1..]
    ensures s.wire.outgoing == w.outgoing && s.wire.sendPlan == w.sendPlan
  {
    var limit :=
      if w.recvPlan == [] then want
      else match w.recvPlan[0]
        case Deliver(l) => l
        case RecvError(_) => -1;
    var rest := if w.recvPlan == [] then [] else w.recvPlan[1..];
    if limit < 0 then
      Step(-1, w.recvPlan[0].errno, [], w.(recvPlan := rest))
    else
      var k := Min(Min(limit, want), |w.incoming|);
      Step(k, 0, w.incoming[..k],
           w.(incoming := if peek then w.incoming else w.incoming[k..], recvPlan := rest))
  }

  /** The errno value of a receive that timed out (EAGAIN is 11 on Linux and
      lwIP). */
  const EAGAIN: int := 11

  /** A `recv` asking for bytes that finds none pending and that the
      schedule does not make fail: it returns 0 once the peer has closed,
      and blocks while the peer is open and silent. */
  predicate RecvWaits(w: Wire, want: nat) {
    want > 0 && w.incoming == [] && (w.recvPlan == [] || w.recvPlan[0].Deliver?)
  }

  /** The waiting calls are exactly those that `RecvStep` answers with 0 for
      a non-empty request. */
  lemma RecvWaitsIsZeroReturn(w: Wire, want: nat, peek: bool)
    ensures RecvWaits(w, want) <==> want > 0 && RecvStep(w, want, peek).n == 0
  {
  }

  /** One `recv(want)` on a socket with a receive timeout (`SO_RCVTIMEO`),
      against a peer that stays open: a call that would wait fails with
      EAGAIN when the timeout expires, and every other call is `RecvStep`. */
  function RecvStepTimed(w: Wire, want: nat, peek: bool): (s: Step)
    ensures s.wire == RecvStep(w, want, peek).wire
    ensures want > 0 ==> s.n != 0
    ensures s.n != -1 || s.errno != EAGAIN ==> s == RecvStep(w, want, peek)
  {
    var s := RecvStep(w, want, peek);
    if RecvWaits(w, want) then Step(-1, EAGAIN, [], s.wire) else s
  }

  /** One `send` call offering the bytes `buf`. */
  function SendStep(w: Wire, buf: seq<byte>): (s: Step)
    ensures s.n >= 0 ==>
      && s.n <= |buf| && s.errno == 0
      && s.wire.outgoing == w.outgoing + buf[..s.n]
    ensures w.sendPlan == [] ==> s.n == |buf|
    ensures s.n < 0 ==> s.n == -1 && s.wire.outgoing == w.outgoing && w.sendPlan != []
    ensures s.data == []
    ensures s.wire.sendPlan == if w.sendPlan == [] then [] else w.sendPlan[1..]
    ensures s.wire.incoming == w.incoming && s.wire.recvPlan == w.recvPlan
  {
    if w.sendPlan == [] then
      Step(|buf|, 0, [], w.(outgoing := w.outgoing + buf))
    else match w.sendPlan[0]
      case Accept(l) =>
        var k := Min(l, |buf|);
        Step(k, 0, [], w.(outgoing := w.outgoing + buf[..k], sendPlan := w.sendPlan[1..]))
      case SendError(e) =>
        Step(-1, e, [], w.(sendPlan := w.sendPlan[1..]))
  }

  /** `b` with `d` written over it from `off` on. */
  function Spliced(b: seq<byte>, off: nat, d: seq<byte>): (r: seq<byte>)
    requires off + |d| <= |b|
    ensures |r| == |b| && r[..off] == b[..off] && r[off..off + |d|] == d && r[off + |d|..] == b[off + |d|..]
  {
    b[..off] + d + b[off + |d|..]
  }

  /** The kernel side of one connected socket. */
  class Socket {
    var incoming: seq<byte>
    var recvPlan: seq<RecvOutcome>
    var outgoing: seq<byte>
    var sendPlan: seq<SendOutcome>
    var isShutDown: bool
    var isClosed: bool

    function State(): Wire
      reads this
    {
      Wire(incoming, recvPlan, outgoing, sendPlan)
    }

    constructor (w: Wire)
      ensures State() == w && !isShutDown && !isClosed
    {
      incoming, recvPlan, outgoing, sendPlan := w.incoming, w.recvPlan, w.outgoing, w.sendPlan;
      isShutDown, isClosed := false, false;
    }

    /** `recv(s, buf + off, want, peek ? MSG_PEEK : 0)`. */
    method Recv(buf: array<byte>, off: nat, want: nat, peek: bool) returns (n: int, errno: int)
      requires off + want <= buf.Length
      modifies this, buf
      ensures var s := RecvStep(old(State()), want, peek);
        && n == s.n && errno == s.errno && State() == s.wire
        && buf[..] == Spliced(old(buf[..]), off, s.data)
      ensures isShutDown == old(isShutDown) && isClosed == old(isClosed)
    {
      var s := RecvStep(State(), want, peek);
      forall i | off <= i < off + |s.data| {
        buf[i] := s.data[i - off];
      }
      n, errno := s.n, s.errno;
      incoming, recvPlan := s.wire.incoming, s.wire.recvPlan;
    }

    /** `send(s, buf + off, want, 0)`. */
    method Send(buf: array<byte>, off: nat, want: nat) returns (n: int, errno: int)
      requires off + want <= buf.Length
      modifies this
      ensures var s := SendStep(old(State()), buf[off..off + want]);
        n == s.n && errno == s.errno && State() == s.wire
      ensures isShutDown == old(isShutDown) && isClosed == old(isClosed)
    {
      var s := SendStep(State(), buf[off..off + want]);
      n, errno := s.n, s.errno;
      outgoing, sendPlan := s.wire.outgoing, s.wire.sendPlan;
    }

    /** `shutdown(s, SHUT_RDWR)`. */
    method Shutdown()
      modifies this
      ensures State() == old(State()) && isShutDown && isClosed == old(isClosed)
    {
      isShutDown := true;
    }

    /** `close(s)`. */
    method Close()
      modifies this
      ensures State() == old(State()) && isClosed && isShutDown == old(isShutDown)
    {
      isClosed := true;
    }
  }
}
