/**
 The byte layouts of the handshake messages: a 2-byte big-endian length in
 front of the public key (mandatory) and in front of the ciphertext
 (optional), nothing in front of the shared secret.
 */
module Framing {
  import opened Transport
  import opened Kem

  /** `(b[0] << 8) | b[1]`, the 16-bit big-endian value of two bytes. */
  function Be16(b: seq<byte>): (v: nat)
    requires |b| == 2
    ensures v < 0x1_0000
    ensures v / 256 == b[0] as int && v % 256 == b[1] as int
  {
    (b[0] as int) * 256 + (b[1] as int)
  }

  /** `{ v >> 8, v & 0xff }` for a 16-bit `v`. */
  function Be16Bytes(v: nat): (b: seq<byte>)
    requires v < 0x1_0000
    ensures |b| == 2 && Be16(b) == v
  {
    [(v / 256) as byte, (v % 256) as byte]
  }

  /** The PK message header: `0x04 0xA0`. */
  function PkHeader(): (h: seq<byte>)
    ensures h == [0x04, 0xA0] && Be16(h) == PK_LEN
  {
    Be16Bytes(PK_LEN)
  }

  /** The optional CT message header: `0x04 0x40`. */
  function CtHeader(): (h: seq<byte>)
    ensures h == [0x04, 0x40] && Be16(h) == CT_LEN
  {
    Be16Bytes(CT_LEN)
  }

  /** Two bytes that decode to a value are the header for that value. */
  lemma Be16Injective(b: seq<byte>, v: nat)
    requires |b| == 2 && v < 0x1_0000
    ensures Be16(b) == v <==> b == Be16Bytes(v)
  {
    if Be16(b) == v {
      assert b == [b[0], b[1]];
    }
  }

  /** The CT message as the initiator frames it. */
  function CtFrame(withHeader: bool, ct: seq<byte>): (f: seq<byte>)
    ensures withHeader ==> |f| == |ct| + 2 && f[..2] == CtHeader() && f[2..] == ct
    ensures !withHeader ==> f == ct
  {
    if withHeader then CtHeader() + ct else ct
  }
}
