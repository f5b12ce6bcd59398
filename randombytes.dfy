/**
 `randombytes(out, outlen)` of components/mlkem/src/randombytes_esp.c: fills
 `outlen` bytes from successive 32-bit words of the hardware generator
 (`esp_random()`), four bytes per word, least significant byte first, and
 only as many low bytes of the last word as are still needed.
 */
module RandomBytes {
  import opened Transport

  newtype u32 = x: int | 0 <= x < 0x1_0000_0000

  /** `1 << (8 * i)` for the four byte positions of a word. */
  function Shift(i: nat): (s: nat)
    requires i < 4
    ensures s > 0
  {
    if i == 0 then 1 else if i == 1 then 0x100 else if i == 2 then 0x1_0000 else 0x100_0000
  }

  /** `(r >> (8 * i)) & 0xFF`. */
  function ByteOf(r: u32, i: nat): byte
    requires i < 4
  {
    var x := r as int;
    (if i == 0 then x % 0x100
     else if i == 1 then (x / 0x100) % 0x100
     else if i == 2 then (x / 0x1_0000) % 0x100
     else (x / 0x100_0000) % 0x100) as byte
  }

  /** The low `n` bytes of `r`, least significant first. */
  function WordBytes(r: u32, n: nat): (b: seq<byte>)
    requires n <= 4
    ensures |b| == n
  {
    seq(n, i requires 0 <= i < n => ByteOf(r, i))
  }

  /** The little-endian value of up to four bytes. */
  function LeValue(b: seq<byte>): nat
    requires |b| <= 4
  {
    if b == [] then 0 else LeValue(b[..|b| - 1]) + (b[|b| - 1] as int) * Shift(|b| - 1)
  }

  /** The four bytes of a word give the word back. */
  lemma WordBytesRoundTrip(r: u32)
    ensures LeValue(WordBytes(r, 4)) == r as int
  {
    var b := WordBytes(r, 4);
    assert b[..3] == WordBytes(r, 3);
    assert WordBytes(r, 3)[..2] == WordBytes(r, 2);
    assert WordBytes(r, 2)[..1] == WordBytes(r, 1);
    assert WordBytes(r, 1)[..0] == [];
    var x := r as int;
    var x1 := x / 0x100;
    var x2 := x1 / 0x100;
    var x3 := x2 / 0x100;
    assert x == x % 0x100 + 0x100 * (x1 % 0x100) + 0x1_0000 * (x2 % 0x100) + 0x100_0000 * x3;
    assert x / 0x1_0000 == x2 && x / 0x100_0000 == x3 && x3 < 0x100;
    assert LeValue(WordBytes(r, 1)) == x % 0x100;
    assert LeValue(WordBytes(r, 2)) == x % 0x100 + (x1 % 0x100) * 0x100;
    assert LeValue(WordBytes(r, 3)) == x % 0x100 + (x1 % 0x100) * 0x100 + (x2 % 0x100) * 0x1_0000;
    assert LeValue(b) == x % 0x100 + (x1 % 0x100) * 0x100 + (x2 % 0x100) * 0x1_0000 + x3 * 0x100_0000;
  }

  /** The `len` bytes `randombytes` writes when the generator's words are
      `words(k)`, `words(k + 1)`, ... */
  function Packed(words: nat -> u32, k: nat, len: nat): (p: seq<byte>)
    ensures |p| == len
    decreases len
  {
    if len == 0 then []
    else
      var n := if len < 4 then len else 4;
      WordBytes(words(k), n) + Packed(words, k + 1, len - n)
  }

  /** The number of words a fill of `len` bytes draws: one per started
      group of four bytes. */
  function WordsFor(len: nat): nat {
    (len + 3) / 4
  }

  /** A word drawn at a word boundary covers the next one to four bytes. */
  lemma WordsForStep(pos: nat, n: nat)
    requires pos % 4 == 0 && 1 <= n <= 4
    ensures WordsFor(pos + n) == WordsFor(pos) + 1
    ensures n == 4 ==> (pos + n) % 4 == 0
    ensures pos == 4 * WordsFor(pos)
  {
  }

  /** Byte `j` of the output is byte `j % 4` of word `j / 4`. */
  lemma {:induction false} PackedByte(words: nat -> u32, k: nat, len: nat, j: nat)
    requires j < len
    ensures Packed(words, k, len)[j] == ByteOf(words(k + j / 4), j % 4)
    decreases len
  {
    var n := if len < 4 then len else 4;
    if j >= 4 {
      PackedByte(words, k + 1, len - n, j - 4);
      assert k + 1 + (j - 4) / 4 == k + j / 4;
    }
  }

  /** When `len` is not a multiple of four, the last word contributes only
      its low `len % 4` bytes. */
  lemma PartialLastWord(words: nat -> u32, k: nat, len: nat)
    requires len % 4 != 0
    ensures Packed(words, k, len)[len - len % 4..] == WordBytes(words(k + len / 4), len % 4)
  {
    var p := Packed(words, k, len);
    var tail := p[len - len % 4..];
    var last := WordBytes(words(k + len / 4), len % 4);
    forall i | 0 <= i < len % 4 ensures tail[i] == last[i] {
      var j := len - len % 4 + i;
      PackedByte(words, k, len, j);
      assert j / 4 == len / 4 && j % 4 == i;
    }
  }

  /** Filling more bytes extends the fill: a shorter fill from the same
      words is a prefix of a longer one when it ends on a word boundary. */
  lemma PackedPrefix(words: nat -> u32, k: nat, q: nat, len: nat)
    requires 4 * q <= len
    ensures Packed(words, k, len) == Packed(words, k, 4 * q) + Packed(words, k + q, len - 4 * q)
  {
    var whole := Packed(words, k, len);
    var front := Packed(words, k, 4 * q);
    var back := Packed(words, k + q, len - 4 * q);
    forall j | 0 <= j < len ensures whole[j] == (front + back)[j] {
      if j < 4 * q {
        FrontByte(words, k, q, len, j);
      } else {
        BackByte(words, k, q, len, j);
      }
    }
  }

  /** Before the first `4q` bytes end, a fill agrees with the fill of
      just `4q` bytes. */
  lemma {:induction false} FrontByte(words: nat -> u32, k: nat, q: nat, len: nat, j: nat)
    requires j < 4 * q <= len
    ensures Packed(words, k, len)[j] == Packed(words, k, 4 * q)[j]
    decreases q
  {
    if j >= 4 {
      FrontByte(words, k + 1, q - 1, len - 4, j - 4);
    }
  }

  /** From byte `4q` on, a fill is the fill that starts `q` words later. */
  lemma BackByte(words: nat -> u32, k: nat, q: nat, len: nat, j: nat)
    requires 4 * q <= j < len
    ensures Packed(words, k, len)[j] == Packed(words, k + q, len - 4 * q)[j - 4 * q]
  {
    PackedByte(words, k, len, j);
    WordIndexShift(j, q);
    assert k + q + (j - 4 * q) / 4 == k + j / 4;
    PackedByte(words, k + q, len - 4 * q, j - 4 * q);
  }

  /** `q` words further on, byte `j` is in a word `q` earlier at the same
      position. */
  lemma WordIndexShift(j: nat, q: nat)
    requires 4 * q <= j
    ensures (j - 4 * q) / 4 == j / 4 - q && (j - 4 * q) % 4 == j % 4
  {
    var d, r := j / 4, j % 4;
    assert j - 4 * q == 4 * (d - q) + r;
  }

  /** One pass of the outer loop of `randombytes`, on the buffer's contents
      `before` and `after` storing a word: the filled prefix grows by the
      word's bytes and the part past it still holds what was there first. */
  lemma WordWritten(orig: seq<byte>, before: seq<byte>, after: seq<byte>, pos: nat, r: u32, n: nat)
    requires n <= 4 && pos + n <= |before| == |orig|
    requires before[pos..] == orig[pos..]
    requires after == Spliced(before, pos, WordBytes(r, n))
    ensures after[..pos + n] == before[..pos] + WordBytes(r, n)
    ensures after[pos + n..] == orig[pos + n..]
  {
    assert after[..pos + n] == after[..pos] + after[pos..pos + n];
    assert after[pos + n..] == before[pos + n..] == before[pos..][n..];
  }

  /** A buffer that agrees with `d` from `off` on and with `b` elsewhere is
      `b` with `d` written over it. */
  lemma SplicedPointwise(b: seq<byte>, a: seq<byte>, off: nat, d: seq<byte>)
    requires |a| == |b| && off + |d| <= |b|
    requires forall j :: 0 <= j < |a| ==> a[j] == if off <= j < off + |d| then d[j - off] else b[j]
    ensures a == Spliced(b, off, d)
  {
    var sp := Spliced(b, off, d);
    forall j | 0 <= j < |a| ensures a[j] == sp[j] {
      if j < off {
        assert sp[j] == sp[..off][j];
      } else if j < off + |d| {
        assert sp[j] == sp[off..off + |d|][j - off];
      } else {
        assert sp[j] == sp[off + |d|..][j - off - |d|];
      }
    }
  }

  /** Word `q` of a fill covers bytes `4q` to `4q + n` of it, `n` being
      four or what is left. */
  lemma PackedWordAt(words: nat -> u32, k: nat, q: nat, len: nat, n: nat)
    requires 4 * q < len && n == (if len - 4 * q < 4 then len - 4 * q else 4)
    ensures Packed(words, k, len)[4 * q..4 * q + n] == WordBytes(words(k + q), n)
  {
    PackedPrefix(words, k, q, len);
    var back := Packed(words, k + q, len - 4 * q);
    assert Packed(words, k, len)[4 * q..] == back;
    assert back == WordBytes(words(k + q), n) + Packed(words, k + q + 1, len - 4 * q - n);
  }

  /** The hardware generator: `esp_random()` returns the words `words(0)`,
      `words(1)`, ... in turn; `drawn` counts the calls. */
  class EntropySource {
    const words: nat -> u32
    var drawn: nat

    constructor (ws: nat -> u32)
      ensures words == ws && drawn == 0
    {
      words := ws;
      drawn := 0;
    }

    /** `esp_random()`. */
    method Next() returns (r: u32)
      modifies this
      ensures r == words(old(drawn)) && drawn == old(drawn) + 1
    {
      r := words(drawn);
      drawn := drawn + 1;
    }
  }

  /** The inner loop of `randombytes`: stores the low `n` bytes of `r`,
      least significant first, at `out[pos..pos + n)`. */
  method StoreWord(out: array<byte>, pos: nat, r: u32, n: nat)
    requires n <= 4 && pos + n <= out.Length
    modifies out
    ensures out[..] == Spliced(old(out[..]), pos, WordBytes(r, n))
  {
    ghost var before := out[..];
    for i := 0 to n
      invariant forall j :: 0 <= j < out.Length ==>
        out[j] == if pos <= j < pos + i then ByteOf(r, j - pos) else before[j]
    {
      out[pos + i] := ByteOf(r, i);
    }
    SplicedPointwise(before, out[..], pos, WordBytes(r, n));
  }

  /** The outer loop's invariant, on the buffer's contents `buf` (first
      `orig`), when `pos` bytes are filled, `left` remain, and words from
      `k0` up to (not including) `k` have been drawn. */
  predicate Filling(buf: seq<byte>, orig: seq<byte>, words: nat -> u32, k0: nat, k: nat,
                    pos: nat, left: nat, outlen: nat)
  {
    && pos + left == outlen <= |buf| == |orig|
    && (left > 0 ==> pos % 4 == 0)
    && k == k0 + WordsFor(pos)
    && |Packed(words, k0, outlen)| == outlen
    && buf[..pos] == Packed(words, k0, outlen)[..pos]
    && buf[pos..] == orig[pos..]
  }

  /** Nothing is filled yet. */
  lemma FillingStart(orig: seq<byte>, words: nat -> u32, k0: nat, outlen: nat)
    requires outlen <= |orig|
    ensures Filling(orig, orig, words, k0, k0, 0, outlen, outlen)
  {
  }

  /** Storing the next word keeps the invariant. */
  lemma FillingStep(before: seq<byte>, after: seq<byte>, orig: seq<byte>, words: nat -> u32, k0: nat, k: nat,
                    pos: nat, left: nat, outlen: nat, n: nat)
    requires left > 0 && Filling(before, orig, words, k0, k, pos, left, outlen)
    requires n == if left < 4 then left else 4
    requires after == Spliced(before, pos, WordBytes(words(k), n))
    ensures Filling(after, orig, words, k0, k + 1, pos + n, left - n, outlen)
  {
    WordWritten(orig, before, after, pos, words(k), n);
    WordsForStep(pos, n);
    PackedWordAt(words, k0, WordsFor(pos), outlen, n);
    PrefixGrows(before[..pos], after[..pos + n], Packed(words, k0, outlen), pos, n, WordBytes(words(k), n));
  }

  /** A prefix of `target` followed by the next `n` bytes of `target` is a
      longer prefix of it. */
  lemma PrefixGrows(prefix: seq<byte>, grown: seq<byte>, target: seq<byte>, pos: nat, n: nat, next: seq<byte>)
    requires pos + n <= |target| && prefix == target[..pos]
    requires next == target[pos..pos + n] && grown == prefix + next
    ensures grown == target[..pos + n]
  {
  }

  /** When nothing is left, the whole fill is in place. */
  lemma FillingDone(buf: seq<byte>, orig: seq<byte>, words: nat -> u32, k0: nat, k: nat, pos: nat, outlen: nat)
    requires Filling(buf, orig, words, k0, k, pos, 0, outlen)
    ensures k == k0 + WordsFor(outlen)
    ensures buf[..outlen] == Packed(words, k0, outlen)
    ensures buf[outlen..] == orig[outlen..]
  {
    assert Packed(words, k0, outlen)[..outlen] == Packed(words, k0, outlen);
  }

  /** `randombytes(out, outlen)`: writes exactly `out[0..outlen)`, byte `j`
      being byte `j % 4` of the `j / 4`-th word drawn, and draws one word
      per started group of four bytes (none when `outlen` is 0). */
  method FillRandom(src: EntropySource, out: array<byte>, outlen: nat)
    requires outlen <= out.Length
    modifies src, out
    ensures src.drawn == old(src.drawn) + WordsFor(outlen)
    ensures out[..outlen] == Packed(src.words, old(src.drawn), outlen)
    ensures out[outlen..] == old(out[outlen..])
  {
    ghost var orig, k0 := out[..], src.drawn;
    var pos: nat, left: nat := 0, outlen;
    FillingStart(orig, src.words, k0, outlen);
    while left > 0
      invariant Filling(out[..], orig, src.words, k0, src.drawn, pos, left, outlen)
      decreases left
    {
      ghost var k, before := src.drawn, out[..];
      var r := src.Next();
      var n: nat := if left < 4 then left else 4;
      StoreWord(out, pos, r, n);
      FillingStep(before, out[..], orig, src.words, k0, k, pos, left, outlen, n);
      pos, left := pos + n, left - n;
    }
    FillingDone(out[..], orig, src.words, k0, src.drawn, pos, outlen);
  }
}
