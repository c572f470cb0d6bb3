/** Authenticated encryption as an opaque pair of functions, known only by its contract
    (NIST SP 800-38D, sections 7.1 and 7.2), and the key derivation that picks one. */
module Aead {
  import opened Base

  const NONCE_SIZE := 12
  const TAG_SIZE := 16

  type Nonce = n: seq<byte> | |n| == NONCE_SIZE witness Zeros(NONCE_SIZE)

  datatype Cipher = Cipher(
    seal: (seq<byte>, seq<byte>) -> seq<byte>,
    open: (seq<byte>, seq<byte>) -> Option<seq<byte>>)
  {
    /** What is assumed of AES-GCM under one key: opening undoes sealing under the same nonce, a tag of
        16 bytes is added by sealing, and removed by an opening that succeeds. */
    ghost predicate Valid() {
      && (forall n, m :: open(n, seal(n, m)) == Some(m))
      && (forall n, m :: |seal(n, m)| == |m| + TAG_SIZE)
      && (forall n, c :: open(n, c).Some? ==> |open(n, c).value| + TAG_SIZE == |c|)
    }
  }

  /** GCMCipher: the cipher derived from a key and an info string; deriving may fail. */
  type Suite = (seq<byte>, string) -> Option<Cipher>

  ghost predicate ValidSuite(suite: Suite) {
    forall key, info :: suite(key, info).Some? ==> suite(key, info).value.Valid()
  }

  /** A cipher that adds a constant tag and checks it. */
  function Toy(): Cipher {
    Cipher(
      (n: seq<byte>, m: seq<byte>) => m + Zeros(TAG_SIZE),
      (n: seq<byte>, c: seq<byte>) =>
        if |c| >= TAG_SIZE && c[|c| - TAG_SIZE..] == Zeros(TAG_SIZE) then Some(c[..|c| - TAG_SIZE]) else None)
  }

  /** The assumptions are consistent: some cipher meets them. */
  lemma ToyIsValid()
    ensures Toy().Valid()
    ensures ValidSuite((key, info) => Some(Toy()))
  {
  }
}
