/**
 What `recv_all` and `send_all` compute, as functions of the connection
 state.  The server and the client each have their own copy of the two
 loops; both `recv_all`s behave alike, and the two `send_all`s differ only
 in what a `send` that returns 0 means (`zeroFails`).
 */
module ReliableIo {
  import opened Transport

  /** The outcome of a whole transfer: the return code (0 or -1), the bytes
      moved so far (received into the buffer, or taken from it by `send`), and
      the connection afterwards. */
  datatype Transfer = Transfer(rc: int, data: seq<byte>, wire: Wire)

  /** The `recv_all` loop from the point where the bytes `got` have arrived. */
  function RecvAllFrom(w: Wire, len: nat, got: seq<byte>): Transfer
    requires |got| <= len
    decreases |w.recvPlan|, len - |got|
  {
    if |got| == len then Transfer(0, got, w)
    else
      var s := RecvStep(w, len - |got|, false);
      if s.n == 0 then Transfer(-1, got, s.wire)
      else if s.n < 0 then
        if s.errno == EINTR then RecvAllFrom(s.wire, len, got) else Transfer(-1, got, s.wire)
      else RecvAllFrom(s.wire, len, got + s.data)
  }

  /** `recv_all(s, buf, len)`. */
  function RecvAll(w: Wire, len: nat): Transfer {
    RecvAllFrom(w, len, [])
  }

  /** Whether the `recv_all` loop from `got` makes a call that waits: against
      a peer that stays open and sends nothing more, the loop blocks in that
      call for good, where the model has it fail as for a closed peer. */
  predicate RecvAllWaits(w: Wire, len: nat, got: seq<byte>)
    requires |got| <= len
    decreases |w.recvPlan|, len - |got|
  {
    if |got| == len then false
    else if RecvWaits(w, len - |got|) then true
    else
      var s := RecvStep(w, len - |got|, false);
      if s.n < 0 then s.errno == EINTR && RecvAllWaits(s.wire, len, got)
      else s.n > 0 && RecvAllWaits(s.wire, len, got + s.data)
  }

  /** The `recv_all` loop on a socket with a receive timeout, against a peer
      that stays open. */
  function RecvAllTimedFrom(w: Wire, len: nat, got: seq<byte>): Transfer
    requires |got| <= len
    decreases |w.recvPlan|, len - |got|
  {
    if |got| == len then Transfer(0, got, w)
    else
      var s := RecvStepTimed(w, len - |got|, false);
      if s.n == 0 then Transfer(-1, got, s.wire)
      else if s.n < 0 then
        if s.errno == EINTR then RecvAllTimedFrom(s.wire, len, got) else Transfer(-1, got, s.wire)
      else RecvAllTimedFrom(s.wire, len, got + s.data)
  }

  function RecvAllTimed(w: Wire, len: nat): Transfer {
    RecvAllTimedFrom(w, len, [])
  }

  /** The `send_all` loop from the point where `sent` bytes of `buf` are out. */
  function SendAllFrom(w: Wire, buf: seq<byte>, sent: nat, zeroFails: bool): Transfer
    requires sent <= |buf|
    decreases |w.sendPlan|, |buf| - sent
  {
    if sent == |buf| then Transfer(0, buf, w)
    else
      var s := SendStep(w, buf[sent..]);
      if s.n < 0 then
        if s.errno == EINTR then SendAllFrom(s.wire, buf, sent, zeroFails)
        else Transfer(-1, buf[..sent], s.wire)
      else if s.n == 0 && zeroFails then Transfer(-1, buf[..sent], s.wire)
      else SendAllFrom(s.wire, buf, sent + s.n, zeroFails)
  }

  /** `send_all(s, buf, len)`; the client's copy fails on a 0 return
      (`zeroFails`), the server's retries. */
  function SendAll(w: Wire, buf: seq<byte>, zeroFails: bool): Transfer {
    SendAllFrom(w, buf, 0, zeroFails)
  }

  /** Every scheduled receive failure is an interruption. */
  predicate RecvRetryable(plan: seq<RecvOutcome>) {
    forall i :: 0 <= i < |plan| ==> plan[i].Deliver? || plan[i].errno == EINTR
  }

  /** Every scheduled send failure is an interruption, and, where a 0 return
      counts as failure, every scheduled send takes at least one byte. */
  predicate SendRetryable(plan: seq<SendOutcome>, zeroFails: bool) {
    forall i :: 0 <= i < |plan| ==>
      if plan[i].Accept? then !zeroFails || plan[i].limit > 0 else plan[i].errno == EINTR
  }

  /** The receive loop delivers at most what was asked for and what was
      pending, touches nothing on the sending side, and reports success
      exactly when all `len` bytes have arrived. */
  lemma {:induction false} RecvAllFromShape(w: Wire, len: nat, got: seq<byte>)
    requires |got| <= len
    ensures var t := RecvAllFrom(w, len, got);
      && |got| <= |t.data| <= len
      && |t.data| - |got| <= |w.incoming|
      && t.wire.outgoing == w.outgoing && t.wire.sendPlan == w.sendPlan
      && (t.rc == 0 || t.rc == -1)
      && (t.rc == 0 <==> |t.data| == len)
    decreases |w.recvPlan|, len - |got|
  {
    if |got| < len {
      var s := RecvStep(w, len - |got|, false);
      if s.n < 0 && s.errno == EINTR {
        RecvAllFromShape(s.wire, len, got);
      } else if s.n > 0 {
        RecvAllFromShape(s.wire, len, got + s.data);
      }
    }
  }

  /** `t` holds `got` followed by a prefix of `inc`, and leaves the rest of
      `inc` pending. */
  predicate Consumed(inc: seq<byte>, got: seq<byte>, t: Transfer) {
    && |got| <= |t.data| && |t.data| - |got| <= |inc|
    && t.data == got + inc[..|t.data| - |got|]
    && t.wire.incoming == inc[|t.data| - |got|..]
  }

  /** What the receive loop delivers: the pending bytes it consumed, after
      what had arrived. */
  lemma {:induction false} RecvAllFromContent(w: Wire, len: nat, got: seq<byte>)
    requires |got| <= len
    ensures Consumed(w.incoming, got, RecvAllFrom(w, len, got))
    decreases |w.recvPlan|, len - |got|
  {
    if |got| < len {
      var s := RecvStep(w, len - |got|, false);
      if s.n < 0 && s.errno == EINTR {
        RecvAllFromContent(s.wire, len, got);
        RetryConsumes(w, len, got);
      } else if s.n > 0 {
        RecvAllFromContent(s.wire, len, got + s.data);
        ProgressConsumes(w, len, got);
      } else {
        FailureConsumes(w, len, got);
      }
    } else {
      NothingConsumed(w.incoming, got);
    }
  }

  /** An interrupted call consumes nothing. */
  lemma RetryConsumes(w: Wire, len: nat, got: seq<byte>)
    requires |got| < len
    requires var s := RecvStep(w, len - |got|, false);
      s.n < 0 && s.errno == EINTR && Consumed(s.wire.incoming, got, RecvAllFrom(s.wire, len, got))
    ensures Consumed(w.incoming, got, RecvAllFrom(w, len, got))
  {
  }

  /** A failed call ends the loop having consumed nothing more. */
  lemma FailureConsumes(w: Wire, len: nat, got: seq<byte>)
    requires |got| < len
    requires var s := RecvStep(w, len - |got|, false); s.n == 0 || (s.n < 0 && s.errno != EINTR)
    ensures Consumed(w.incoming, got, RecvAllFrom(w, len, got))
  {
    var s := RecvStep(w, len - |got|, false);
    assert RecvAllFrom(w, len, got) == Transfer(-1, got, s.wire) && s.wire.incoming == w.incoming;
    NothingConsumed(w.incoming, got);
  }

  /** A call that delivers bytes consumes them, and the rest of the loop
      consumes what follows them. */
  lemma ProgressConsumes(w: Wire, len: nat, got: seq<byte>)
    requires |got| < len
    requires var s := RecvStep(w, len - |got|, false);
      s.n > 0 && Consumed(s.wire.incoming, got + s.data, RecvAllFrom(s.wire, len, got + s.data))
    ensures Consumed(w.incoming, got, RecvAllFrom(w, len, got))
  {
    var s := RecvStep(w, len - |got|, false);
    var t := RecvAllFrom(w, len, got);
    assert RecvAllFrom(s.wire, len, got + s.data) == t;
    assert s.data == w.incoming[..s.n] && s.wire.incoming == w.incoming[s.n..];
    ConsumedInSteps(w.incoming, got, s.n, t.data, t.wire.incoming);
  }

  /** Consuming nothing leaves what had arrived and what is pending. */
  lemma NothingConsumed(inc: seq<byte>, got: seq<byte>)
    ensures got + inc[..0] == got && inc[0..] == inc
  {
    assert inc[..0] == [];
  }

  /** The receive loop consumes a prefix of the pending bytes and delivers
      exactly those, after what had arrived; it touches nothing on the
      sending side and reports success exactly when all `len` bytes have
      arrived. */
  lemma RecvAllFromConsumes(w: Wire, len: nat, got: seq<byte>)
    requires |got| <= len
    ensures var t := RecvAllFrom(w, len, got);
      && |got| <= |t.data| <= len
      && |t.data| - |got| <= |w.incoming|
      && t.data == got + w.incoming[..|t.data| - |got|]
      && t.wire.incoming == w.incoming[|t.data| - |got|..]
      && t.wire.outgoing == w.outgoing && t.wire.sendPlan == w.sendPlan
      && (t.rc == 0 || t.rc == -1)
      && (t.rc == 0 <==> |t.data| == len)
  {
    RecvAllFromShape(w, len, got);
    RecvAllFromContent(w, len, got);
    assert Consumed(w.incoming, got, RecvAllFrom(w, len, got));
  }

  /** Taking `n` bytes of `inc` and then a prefix of the rest takes a
      prefix of `inc`. */
  lemma ConsumedInSteps(inc: seq<byte>, got: seq<byte>, n: nat, data: seq<byte>, left: seq<byte>)
    requires n <= |inc|
    requires |got| + n <= |data| && |data| - |got| <= |inc|
    requires data == got + inc[..n] + inc[n..][..|data| - |got| - n]
    requires left == inc[n..][|data| - |got| - n..]
    ensures data == got + inc[..|data| - |got|] && left == inc[|data| - |got|..]
  {
    var k := |data| - |got| - n;
    assert inc[..n] + inc[n..][..k] == inc[..n + k];
  }

  /** `recv_all` returns 0 only when exactly the next `len` bytes of the
      stream have been written, in order, and consumed. */
  lemma RecvAllExact(w: Wire, len: nat)
    ensures var t := RecvAll(w, len);
      && (t.rc == 0 || t.rc == -1)
      && (t.rc == 0 ==> len <= |w.incoming| && t.data == w.incoming[..len] && t.wire.incoming == w.incoming[len..])
  {
    RecvAllFromConsumes(w, len, []);
  }

  /** A peer that closes before `len` bytes arrive makes `recv_all` fail. */
  lemma RecvAllPeerClosed(w: Wire, len: nat)
    requires |w.incoming| < len
    ensures RecvAll(w, len).rc == -1
  {
    RecvAllFromConsumes(w, len, []);
  }

  lemma {:induction false} RecvAllFromSucceeds(w: Wire, len: nat, got: seq<byte>)
    requires |got| <= len && len - |got| <= |w.incoming| && RecvRetryable(w.recvPlan)
    ensures RecvAllFrom(w, len, got).rc == 0
    decreases |w.recvPlan|, len - |got|
  {
    if |got| < len {
      var s := RecvStep(w, len - |got|, false);
      assert RecvRetryable(s.wire.recvPlan) by {
        forall i | 0 <= i < |s.wire.recvPlan|
          ensures s.wire.recvPlan[i].Deliver? || s.wire.recvPlan[i].errno == EINTR
        {
          assert s.wire.recvPlan[i] == w.recvPlan[i + 1];
        }
      }
      if s.n < 0 {
        assert w.recvPlan[0].RecvError?;
        RecvAllFromSucceeds(s.wire, len, got);
      } else {
        RecvAllFromSucceeds(s.wire, len, got + s.data);
      }
    }
  }

  /** When the peer sends at least `len` bytes and no receive fails other
      than by interruption, `recv_all` succeeds, whatever the chunking. */
  lemma RecvAllSucceeds(w: Wire, len: nat)
    requires len <= |w.incoming| && RecvRetryable(w.recvPlan)
    ensures RecvAll(w, len).rc == 0 && RecvAll(w, len).data == w.incoming[..len]
  {
    RecvAllFromSucceeds(w, len, []);
    RecvAllFromConsumes(w, len, []);
  }

  /** A receive timeout ends the loop as a close does: `recv_all` treats a
      timed-out call (-1, EAGAIN) as it treats a 0 return, so the timed loop
      computes what the model's loop computes. */
  lemma {:induction false} RecvAllTimedLikeClose(w: Wire, len: nat, got: seq<byte>)
    requires |got| <= len
    ensures RecvAllTimedFrom(w, len, got) == RecvAllFrom(w, len, got)
    decreases |w.recvPlan|, len - |got|
  {
    if |got| < len && !RecvWaits(w, len - |got|) {
      var s := RecvStep(w, len - |got|, false);
      if s.n < 0 && s.errno == EINTR {
        RecvAllTimedLikeClose(s.wire, len, got);
      } else if s.n > 0 {
        RecvAllTimedLikeClose(s.wire, len, got + s.data);
      }
    }
  }

  /** With every scheduled failure an interruption, the loop waits exactly
      when it fails: it can only fail at an empty stream. */
  lemma {:induction false} RecvAllWaitsIffFails(w: Wire, len: nat, got: seq<byte>)
    requires |got| <= len && RecvRetryable(w.recvPlan)
    ensures RecvAllWaits(w, len, got) <==> RecvAllFrom(w, len, got).rc != 0
    decreases |w.recvPlan|, len - |got|
  {
    if |got| < len && !RecvWaits(w, len - |got|) {
      var s := RecvStep(w, len - |got|, false);
      assert RecvRetryable(s.wire.recvPlan) by {
        forall i | 0 <= i < |s.wire.recvPlan|
          ensures s.wire.recvPlan[i].Deliver? || s.wire.recvPlan[i].errno == EINTR
        {
          assert s.wire.recvPlan[i] == w.recvPlan[i + 1];
        }
      }
      if s.n < 0 {
        RecvAllWaitsIffFails(s.wire, len, got);
      } else {
        RecvAllWaitsIffFails(s.wire, len, got + s.data);
      }
    }
  }

  /** A loop whose missing bytes are all pending already never waits,
      whatever the schedule. */
  lemma {:induction false} RecvAllNeverWaits(w: Wire, len: nat, got: seq<byte>)
    requires |got| <= len && len - |got| <= |w.incoming|
    ensures !RecvAllWaits(w, len, got)
    decreases |w.recvPlan|, len - |got|
  {
    if |got| < len {
      var s := RecvStep(w, len - |got|, false);
      if s.n < 0 {
        RecvAllNeverWaits(s.wire, len, got);
      } else if s.n > 0 {
        RecvAllNeverWaits(s.wire, len, got + s.data);
      }
    }
  }

  /** An interrupted `recv` is retried with nothing received: the loop ends
      exactly as it would have without the interruption. */
  lemma RecvAllRetriesInterrupt(w: Wire, len: nat, got: seq<byte>)
    requires |got| < len
    ensures RecvAllFrom(w.(recvPlan := [RecvError(EINTR)] + w.recvPlan), len, got)
         == RecvAllFrom(w, len, got)
  {
    var w' := w.(recvPlan := [RecvError(EINTR)] + w.recvPlan);
    assert RecvStep(w', len - |got|, false).wire == w;
  }

  /** The send loop hands over a prefix of the buffer, touches nothing on
      the receiving side, and reports success exactly when the whole buffer
      is out. */
  lemma {:induction false} SendAllFromShape(w: Wire, buf: seq<byte>, sent: nat, zeroFails: bool)
    requires sent <= |buf|
    ensures var t := SendAllFrom(w, buf, sent, zeroFails);
      && sent <= |t.data| <= |buf|
      && t.data == buf[..|t.data|]
      && t.wire.incoming == w.incoming && t.wire.recvPlan == w.recvPlan
      && (t.rc == 0 || t.rc == -1)
      && (t.rc == 0 <==> |t.data| == |buf|)
    decreases |w.sendPlan|, |buf| - sent
  {
    if sent < |buf| {
      var s := SendStep(w, buf[sent..]);
      if s.n < 0 && s.errno == EINTR {
        SendAllFromShape(s.wire, buf, sent, zeroFails);
      } else if s.n > 0 || (s.n == 0 && !zeroFails) {
        SendAllFromShape(s.wire, buf, sent + s.n, zeroFails);
      }
    }
  }

  /** `t` has handed over `buf[sent..|t.data|]`, appended to `out`. */
  predicate Appended(out: seq<byte>, buf: seq<byte>, sent: nat, t: Transfer) {
    sent <= |t.data| <= |buf| && t.wire.outgoing == out + buf[sent..|t.data|]
  }

  /** What the send loop appends to the output: the bytes it handed over, in
      order. */
  lemma {:induction false} SendAllFromContent(w: Wire, buf: seq<byte>, sent: nat, zeroFails: bool)
    requires sent <= |buf|
    ensures Appended(w.outgoing, buf, sent, SendAllFrom(w, buf, sent, zeroFails))
    decreases |w.sendPlan|, |buf| - sent
  {
    if sent < |buf| {
      var s := SendStep(w, buf[sent..]);
      if s.n < 0 && s.errno == EINTR {
        SendAllFromContent(s.wire, buf, sent, zeroFails);
        RetryAppends(w, buf, sent, zeroFails);
      } else if s.n > 0 || (s.n == 0 && !zeroFails) {
        SendAllFromContent(s.wire, buf, sent + s.n, zeroFails);
        ProgressAppends(w, buf, sent, zeroFails);
      } else {
        FailureAppends(w, buf, sent, zeroFails);
      }
    } else {
      assert buf[sent..|buf|] == [];
    }
  }

  /** An interrupted call appends nothing. */
  lemma RetryAppends(w: Wire, buf: seq<byte>, sent: nat, zeroFails: bool)
    requires sent < |buf|
    requires var s := SendStep(w, buf[sent..]);
      s.n < 0 && s.errno == EINTR && Appended(s.wire.outgoing, buf, sent, SendAllFrom(s.wire, buf, sent, zeroFails))
    ensures Appended(w.outgoing, buf, sent, SendAllFrom(w, buf, sent, zeroFails))
  {
  }

  /** A failed call ends the loop having appended nothing more. */
  lemma FailureAppends(w: Wire, buf: seq<byte>, sent: nat, zeroFails: bool)
    requires sent < |buf|
    requires var s := SendStep(w, buf[sent..]);
      (s.n < 0 && s.errno != EINTR) || (s.n == 0 && zeroFails)
    ensures Appended(w.outgoing, buf, sent, SendAllFrom(w, buf, sent, zeroFails))
  {
    var s := SendStep(w, buf[sent..]);
    assert SendAllFrom(w, buf, sent, zeroFails) == Transfer(-1, buf[..sent], s.wire);
    assert buf[sent..sent] == [] && s.wire.outgoing == w.outgoing;
  }

  /** A call that takes bytes appends them, and the rest of the loop appends
      what follows them. */
  lemma ProgressAppends(w: Wire, buf: seq<byte>, sent: nat, zeroFails: bool)
    requires sent < |buf|
    requires var s := SendStep(w, buf[sent..]);
      && (s.n > 0 || (s.n == 0 && !zeroFails))
      && Appended(s.wire.outgoing, buf, sent + s.n, SendAllFrom(s.wire, buf, sent + s.n, zeroFails))
    ensures Appended(w.outgoing, buf, sent, SendAllFrom(w, buf, sent, zeroFails))
  {
    var s := SendStep(w, buf[sent..]);
    var t := SendAllFrom(s.wire, buf, sent + s.n, zeroFails);
    assert t == SendAllFrom(w, buf, sent, zeroFails);
    AppendInSteps(w.outgoing, buf, sent, s.n, |t.data|);
  }

  /** Moreover the bytes handed over are appended to the output in order. */
  lemma SendAllFromAppends(w: Wire, buf: seq<byte>, sent: nat, zeroFails: bool)
    requires sent <= |buf|
    ensures var t := SendAllFrom(w, buf, sent, zeroFails);
      && sent <= |t.data| <= |buf|
      && t.data == buf[..|t.data|]
      && t.wire.outgoing == w.outgoing + buf[sent..|t.data|]
      && t.wire.incoming == w.incoming && t.wire.recvPlan == w.recvPlan
      && (t.rc == 0 || t.rc == -1)
      && (t.rc == 0 <==> |t.data| == |buf|)
  {
    SendAllFromShape(w, buf, sent, zeroFails);
    SendAllFromContent(w, buf, sent, zeroFails);
    assert Appended(w.outgoing, buf, sent, SendAllFrom(w, buf, sent, zeroFails));
  }

  /** The first `k` bytes of a header followed by a body, appended to `out`. */
  lemma MessagePrefix(out: seq<byte>, hdr: seq<byte>, body: seq<byte>, k: nat)
    requires k <= |hdr| + |body|
    ensures k <= |hdr| ==> out + hdr[..k] == out + (hdr + body)[..k]
    ensures k >= |hdr| ==> out + hdr + body[..k - |hdr|] == out + (hdr + body)[..k]
  {
    if k <= |hdr| {
      assert hdr[..k] == (hdr + body)[..k];
    } else {
      assert hdr + body[..k - |hdr|] == (hdr + body)[..k];
    }
  }

  /** Once a header is out in full, sending the body completes the message
      `hdr + body` or, on failure, leaves a proper prefix of it that holds
      the whole header; the receiving side is untouched throughout. */
  lemma SendAfterHeader(w: Wire, h: Transfer, hdr: seq<byte>, body: seq<byte>, zeroFails: bool)
    requires h.rc == 0 && h.wire.outgoing == w.outgoing + hdr
    requires h.wire.incoming == w.incoming && h.wire.recvPlan == w.recvPlan
    ensures var b := SendAll(h.wire, body, zeroFails);
      && (b.rc == 0 || b.rc == -1)
      && b.wire.incoming == w.incoming && b.wire.recvPlan == w.recvPlan
      && (b.rc == 0 ==> b.wire.outgoing == w.outgoing + (hdr + body))
      && (b.rc != 0 ==> exists k :: |hdr| <= k < |hdr| + |body| && b.wire.outgoing == w.outgoing + (hdr + body)[..k])
  {
    var b := SendAll(h.wire, body, zeroFails);
    SendAllFromAppends(h.wire, body, 0, zeroFails);
    var k := |hdr| + |b.data|;
    MessagePrefix(w.outgoing, hdr, body, k);
    assert b.wire.outgoing == w.outgoing + (hdr + body)[..k];
    assert (hdr + body)[..|hdr| + |body|] == hdr + body;
  }

  /** Appending `buf[sent..][..n]` and then `buf[sent + n..k]` appends `buf[sent..k]`. */
  lemma AppendInSteps(out: seq<byte>, buf: seq<byte>, sent: nat, n: nat, k: nat)
    requires sent + n <= k <= |buf|
    ensures out + buf[sent..][..n] + buf[sent + n..k] == out + buf[sent..k]
  {
    assert buf[sent..][..n] + buf[sent + n..k] == buf[sent..k];
  }

  /** `send_all` returns 0 only after all of `buf` has been appended, in
      order, to the output. */
  lemma SendAllExact(w: Wire, buf: seq<byte>, zeroFails: bool)
    ensures var t := SendAll(w, buf, zeroFails);
      && (t.rc == 0 || t.rc == -1)
      && (t.rc == 0 ==> t.wire.outgoing == w.outgoing + buf)
      && (exists k :: 0 <= k <= |buf| && t.wire.outgoing == w.outgoing + buf[..k])
  {
    SendAllFromAppends(w, buf, 0, zeroFails);
    var t := SendAll(w, buf, zeroFails);
    assert t.wire.outgoing == w.outgoing + buf[..|t.data|];
  }

  lemma {:induction false} SendAllFromSucceeds(w: Wire, buf: seq<byte>, sent: nat, zeroFails: bool)
    requires sent <= |buf| && SendRetryable(w.sendPlan, zeroFails)
    ensures SendAllFrom(w, buf, sent, zeroFails).rc == 0
    decreases |w.sendPlan|, |buf| - sent
  {
    if sent < |buf| {
      var s := SendStep(w, buf[sent..]);
      assert SendRetryable(s.wire.sendPlan, zeroFails) by {
        forall i | 0 <= i < |s.wire.sendPlan|
          ensures var e := s.wire.sendPlan[i];
            if e.Accept? then !zeroFails || e.limit > 0 else e.errno == EINTR
        {
          assert s.wire.sendPlan[i] == w.sendPlan[i + 1];
        }
      }
      if s.n < 0 {
        assert w.sendPlan[0].SendError?;
        SendAllFromSucceeds(s.wire, buf, sent, zeroFails);
      } else {
        assert s.n == 0 ==> w.sendPlan != [] && w.sendPlan[0].Accept? && w.sendPlan[0].limit == 0;
        SendAllFromSucceeds(s.wire, buf, sent + s.n, zeroFails);
      }
    }
  }

  /** When no send fails other than by interruption (and, for the client's
      copy, none returns 0), `send_all` succeeds. */
  lemma SendAllSucceeds(w: Wire, buf: seq<byte>, zeroFails: bool)
    requires SendRetryable(w.sendPlan, zeroFails)
    ensures SendAll(w, buf, zeroFails).rc == 0
    ensures SendAll(w, buf, zeroFails).wire.outgoing == w.outgoing + buf
  {
    SendAllFromSucceeds(w, buf, 0, zeroFails);
    SendAllExact(w, buf, zeroFails);
  }

  /** The two copies of `send_all` part ways on a `send` that takes nothing:
      the server's retries and delivers the buffer, the client's gives up
      having sent nothing. */
  lemma SendZeroReturn(w: Wire, buf: seq<byte>)
    requires buf != [] && w.sendPlan == [Accept(0)]
    ensures SendAll(w, buf, false).rc == 0 && SendAll(w, buf, false).wire.outgoing == w.outgoing + buf
    ensures SendAll(w, buf, true).rc == -1 && SendAll(w, buf, true).wire.outgoing == w.outgoing
  {
    var w1 := SendStep(w, buf).wire;
    assert w1.sendPlan == [] && w1.outgoing == w.outgoing;
    assert SendAllFrom(w1, buf, 0, false).wire.outgoing == w.outgoing + buf[0..];
  }

  /** The receive loop neither reads nor writes the sending side. */
  lemma {:induction false} RecvAllFromIgnoresSendSide(w: Wire, len: nat, got: seq<byte>, o: seq<byte>, p: seq<SendOutcome>)
    requires |got| <= len
    ensures var t := RecvAllFrom(w, len, got);
      RecvAllFrom(w.(outgoing := o, sendPlan := p), len, got) == t.(wire := t.wire.(outgoing := o, sendPlan := p))
    decreases |w.recvPlan|, len - |got|
  {
    if |got| < len {
      var s := RecvStep(w, len - |got|, false);
      var v := w.(outgoing := o, sendPlan := p);
      assert RecvStep(v, len - |got|, false) == s.(wire := s.wire.(outgoing := o, sendPlan := p));
      if s.n < 0 && s.errno == EINTR {
        RecvAllFromIgnoresSendSide(s.wire, len, got, o, p);
      } else if s.n > 0 {
        RecvAllFromIgnoresSendSide(s.wire, len, got + s.data, o, p);
      }
    }
  }

  /** The send loop neither reads nor writes the receiving side. */
  lemma {:induction false} SendAllFromIgnoresRecvSide(w: Wire, buf: seq<byte>, sent: nat, zeroFails: bool, i: seq<byte>, q: seq<RecvOutcome>)
    requires sent <= |buf|
    ensures var t := SendAllFrom(w, buf, sent, zeroFails);
      SendAllFrom(w.(incoming := i, recvPlan := q), buf, sent, zeroFails) == t.(wire := t.wire.(incoming := i, recvPlan := q))
    decreases |w.sendPlan|, |buf| - sent
  {
    if sent < |buf| {
      var s := SendStep(w, buf[sent..]);
      var v := w.(incoming := i, recvPlan := q);
      assert SendStep(v, buf[sent..]) == s.(wire := s.wire.(incoming := i, recvPlan := q));
      if s.n < 0 && s.errno == EINTR {
        SendAllFromIgnoresRecvSide(s.wire, buf, sent, zeroFails, i, q);
      } else if s.n > 0 || (s.n == 0 && !zeroFails) {
        SendAllFromIgnoresRecvSide(s.wire, buf, sent + s.n, zeroFails, i, q);
      }
    }
  }

  lemma RecvPlanSuffix(w: Wire, len: nat, got: seq<byte>)
    requires |got| <= len
    ensures var t := RecvAllFrom(w, len, got);
      |t.wire.recvPlan| <= |w.recvPlan| && t.wire.recvPlan == w.recvPlan[|w.recvPlan| - |t.wire.recvPlan|..]
  {
    RecvPlanShrinks(w, len, got);
    assert IsSuffix(w.recvPlan, RecvAllFrom(w, len, got).wire.recvPlan);
  }

  lemma {:induction false} RecvPlanShrinks(w: Wire, len: nat, got: seq<byte>)
    requires |got| <= len
    ensures IsSuffix(w.recvPlan, RecvAllFrom(w, len, got).wire.recvPlan)
    decreases |w.recvPlan|, len - |got|
  {
    var t := RecvAllFrom(w, len, got);
    if |got| < len {
      var s := RecvStep(w, len - |got|, false);
      if s.n < 0 && s.errno == EINTR {
        RecvPlanShrinks(s.wire, len, got);
        assert RecvAllFrom(s.wire, len, got) == t;
        SuffixThroughStep(w.recvPlan, s.wire.recvPlan, t.wire.recvPlan);
      } else if s.n > 0 {
        RecvPlanShrinks(s.wire, len, got + s.data);
        assert RecvAllFrom(s.wire, len, got + s.data) == t;
        SuffixThroughStep(w.recvPlan, s.wire.recvPlan, t.wire.recvPlan);
      } else {
        assert t.wire == s.wire;
        SuffixThroughStep(w.recvPlan, s.wire.recvPlan, t.wire.recvPlan);
      }
    } else {
      assert w.recvPlan[0..] == w.recvPlan;
    }
  }

  /** `short` is what is left of `long` once some of its head is used up. */
  predicate IsSuffix<T(==)>(long: seq<T>, short: seq<T>) {
    |short| <= |long| && short == long[|long| - |short|..]
  }

  /** One plan entry used up (none when the plan is empty), then a suffix
      of the rest. */
  lemma SuffixThroughStep<T>(p: seq<T>, q: seq<T>, r: seq<T>)
    requires q == if p == [] then [] else p[1..]
    requires IsSuffix(q, r)
    ensures IsSuffix(p, r)
  {
    if p != [] {
      assert p[1..][|q| - |r|..] == p[|p| - |r|..];
    }
  }

  lemma SuffixRetryable(plan: seq<RecvOutcome>, k: nat)
    requires RecvRetryable(plan) && k <= |plan|
    ensures RecvRetryable(plan[k..])
  {
    forall i | 0 <= i < |plan[k..]| ensures plan[k..][i].Deliver? || plan[k..][i].errno == EINTR {
      assert plan[k..][i] == plan[k + i];
    }
  }

  lemma SendPlanSuffix(w: Wire, buf: seq<byte>, sent: nat, zeroFails: bool)
    requires sent <= |buf|
    ensures var t := SendAllFrom(w, buf, sent, zeroFails);
      |t.wire.sendPlan| <= |w.sendPlan| && t.wire.sendPlan == w.sendPlan[|w.sendPlan| - |t.wire.sendPlan|..]
  {
    SendPlanShrinks(w, buf, sent, zeroFails);
    assert IsSuffix(w.sendPlan, SendAllFrom(w, buf, sent, zeroFails).wire.sendPlan);
  }

  lemma {:induction false} SendPlanShrinks(w: Wire, buf: seq<byte>, sent: nat, zeroFails: bool)
    requires sent <= |buf|
    ensures IsSuffix(w.sendPlan, SendAllFrom(w, buf, sent, zeroFails).wire.sendPlan)
    decreases |w.sendPlan|, |buf| - sent
  {
    var t := SendAllFrom(w, buf, sent, zeroFails);
    if sent < |buf| {
      var s := SendStep(w, buf[sent..]);
      if s.n < 0 && s.errno == EINTR {
        SendPlanShrinks(s.wire, buf, sent, zeroFails);
        assert SendAllFrom(s.wire, buf, sent, zeroFails) == t;
        SuffixThroughStep(w.sendPlan, s.wire.sendPlan, t.wire.sendPlan);
        assert IsSuffix(w.sendPlan, t.wire.sendPlan);
      } else if s.n > 0 || (s.n == 0 && !zeroFails) {
        SendPlanShrinks(s.wire, buf, sent + s.n, zeroFails);
        assert SendAllFrom(s.wire, buf, sent + s.n, zeroFails) == t;
        SuffixThroughStep(w.sendPlan, s.wire.sendPlan, t.wire.sendPlan);
        assert IsSuffix(w.sendPlan, t.wire.sendPlan);
      } else {
        assert t.wire == s.wire;
        SuffixThroughStep(w.sendPlan, s.wire.sendPlan, t.wire.sendPlan);
        assert IsSuffix(w.sendPlan, t.wire.sendPlan);
      }
    } else {
      assert w.sendPlan[0..] == w.sendPlan;
    }
  }

  lemma SendSuffixRetryable(plan: seq<SendOutcome>, zeroFails: bool, k: nat)
    requires SendRetryable(plan, zeroFails) && k <= |plan|
    ensures SendRetryable(plan[k..], zeroFails)
  {
    forall i | 0 <= i < |plan[k..]|
      ensures var e := plan[k..][i]; if e.Accept? then !zeroFails || e.limit > 0 else e.errno == EINTR
    {
      assert plan[k..][i] == plan[k + i];
    }
  }

  /** The schedule a successful or failed transfer leaves behind is a
      suffix of the one it started with, so a schedule whose failures are
      all interruptions stays so. */
  lemma RecvAllLeavesRetryable(w: Wire, len: nat)
    requires RecvRetryable(w.recvPlan)
    ensures RecvRetryable(RecvAll(w, len).wire.recvPlan)
  {
    RecvPlanSuffix(w, len, []);
    SuffixRetryable(w.recvPlan, |w.recvPlan| - |RecvAll(w, len).wire.recvPlan|);
  }

  lemma SendAllLeavesRetryable(w: Wire, buf: seq<byte>, zeroFails: bool)
    requires SendRetryable(w.sendPlan, zeroFails)
    ensures SendRetryable(SendAll(w, buf, zeroFails).wire.sendPlan, zeroFails)
  {
    SendPlanSuffix(w, buf, 0, zeroFails);
    SendSuffixRetryable(w.sendPlan, zeroFails, |w.sendPlan| - |SendAll(w, buf, zeroFails).wire.sendPlan|);
  }

  /** The invariant of a `recv_all` loop that started on `w0` with the
      buffer holding `orig`: the connection is now `w`, the buffer holds `b`
      and its first `got` bytes have arrived; the rest of the loop then ends
      where `recv_all` does, and the buffer past `got` is untouched. */
  predicate Receiving(w0: Wire, len: nat, orig: seq<byte>, w: Wire, b: seq<byte>, got: nat) {
    && got <= len <= |b| == |orig|
    && RecvAllFrom(w, len, b[..got]) == RecvAll(w0, len)
    && b[got..] == orig[got..]
  }

  /** A `recv_all` loop that started on `w0` with the buffer holding `orig`
      has ended as `recv_all` does: return code `rc`, connection `w`, and
      the buffer `b` holding what arrived, then what was there before. */
  predicate Received(w0: Wire, len: nat, orig: seq<byte>, rc: int, w: Wire, b: seq<byte>) {
    var t := RecvAll(w0, len);
    && rc == t.rc && w == t.wire
    && |t.data| <= len <= |b| == |orig|
    && b[..|t.data|] == t.data && b[|t.data|..] == orig[|t.data|..]
  }

  lemma RecvLoopStart(w0: Wire, len: nat, orig: seq<byte>)
    requires len <= |orig|
    ensures Receiving(w0, len, orig, w0, orig, 0)
  {
    assert orig[..0] == [];
  }

  /** One `recv` of the loop, returning `n` and `errno`, keeps its
      invariant or ends the loop as `recv_all` does: the connection goes
      from `before` to `w1` and the buffer from `b0` to `b1`. */
  lemma RecvLoopStep(w0: Wire, len: nat, orig: seq<byte>, before: Wire, b0: seq<byte>, got: nat,
                     n: int, errno: int, w1: Wire, b1: seq<byte>)
    requires got < len && Receiving(w0, len, orig, before, b0, got)
    requires var s := RecvStep(before, len - got, false);
      n == s.n && errno == s.errno && w1 == s.wire && b1 == Spliced(b0, got, s.data)
    ensures n == 0 || (n < 0 && errno != EINTR) ==> Received(w0, len, orig, -1, w1, b1)
    ensures n < 0 && errno == EINTR ==> Receiving(w0, len, orig, w1, b1, got)
    ensures n > 0 ==> Receiving(w0, len, orig, w1, b1, got + n)
  {
    var s := RecvStep(before, len - got, false);
    BufferFilled(orig, b0, b1, got, s.data);
    if n == 0 || (n < 0 && errno != EINTR) {
      assert RecvAllFrom(before, len, b0[..got]) == Transfer(-1, b0[..got], s.wire);
      assert b1[..got] == b0[..got];
    }
  }

  /** The loop ends successfully once all `len` bytes have arrived. */
  lemma RecvLoopDone(w0: Wire, len: nat, orig: seq<byte>, w: Wire, b: seq<byte>)
    requires Receiving(w0, len, orig, w, b, len)
    ensures Received(w0, len, orig, 0, w, b)
  {
  }

  /** The buffer of a receive loop after one `recv` of `data` at `got`:
      `b0` before the call, `b1` after it, `orig` at the start of the loop.
      The received prefix grows by `data` and the rest is still as it was. */
  lemma BufferFilled(orig: seq<byte>, b0: seq<byte>, b1: seq<byte>, got: nat, data: seq<byte>)
    requires |orig| == |b0| == |b1| && got + |data| <= |b1|
    requires b0[got..] == orig[got..]
    requires b1[..got] == b0[..got] && b1[got..got + |data|] == data && b1[got + |data|..] == b0[got + |data|..]
    ensures b1[..got + |data|] == b0[..got] + data
    ensures b1[got + |data|..] == orig[got + |data|..]
  {
    assert b1[..got + |data|] == b1[..got] + b1[got..got + |data|];
    assert b0[got + |data|..] == b0[got..][|data|..];
  }
}
