/**
 The ML-KEM-768 sizes and the three KEM operations, which the handshake uses
 as black boxes.  Each operation is a function value: one that fills
 fixed-size outputs and returns an int status (0 is success), as
 `crypto_kem_enc` and `crypto_kem_dec` do.
 */
module Kem {
  import opened Transport

  const PK_LEN: nat := 1184
  const SK_LEN: nat := 2400
  const CT_LEN: nat := 1088
  const SS_LEN: nat := 32

  type PublicKey = s: seq<byte> | |s| == PK_LEN witness seq(PK_LEN, _ => 0)
  type SecretKey = s: seq<byte> | |s| == SK_LEN witness seq(SK_LEN, _ => 0)
  type Ciphertext = s: seq<byte> | |s| == CT_LEN witness seq(CT_LEN, _ => 0)
  type SharedSecret = s: seq<byte> | |s| == SS_LEN witness seq(SS_LEN, _ => 0)

  /** `crypto_kem_enc(ct, ss, pk)`: status, ciphertext and the initiator's secret. */
  datatype Encapsulation = Encapsulation(status: int, ct: Ciphertext, ss: SharedSecret)

  /** `crypto_kem_dec(ss, ct, sk)`: status and the responder's secret. */
  datatype Decapsulation = Decapsulation(status: int, ss: SharedSecret)

  type Encaps = PublicKey -> Encapsulation
  type Decaps = (Ciphertext, SecretKey) -> Decapsulation

  /** Correctness of the KEM for one key pair, as a hypothesis: whatever a
      successful encapsulation against `pk` produces, decapsulating its
      ciphertext with `sk` succeeds with the same secret. */
  ghost predicate Agrees(enc: Encaps, dec: Decaps, pk: PublicKey, sk: SecretKey) {
    enc(pk).status == 0 ==> dec(enc(pk).ct, sk) == Decapsulation(0, enc(pk).ss)
  }
}
