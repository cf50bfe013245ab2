/** A cipher that XORs the data with a keystream drawn from the key and the
    counter parameters: counter mode as section 6.5 of NIST SP 800-38A
    describes it. It meets both cipher assumptions of the round-trip lemmas,
    so those assumptions can hold. */
module CounterMode {
  import opened Js
  import opened Helpers

  function Pow2(n: nat): (r: nat)
    ensures r >= 1
  {
    if n == 0 then 1 else 2 * Pow2(n - 1)
  }

  /** Exclusive or of the lowest bits of `x` and `y`. */
  function XorBit(x: nat, y: nat): nat {
    if x % 2 == y % 2 then 0 else 1
  }

  /** Bitwise exclusive or of the low `n` bits of `a` and `b`. */
  function XorBits(a: nat, b: nat, n: nat): (r: nat)
    ensures r < Pow2(n)
  {
    if n == 0 then 0 else XorBit(a, b) + 2 * XorBits(a / 2, b / 2, n - 1)
  }

  lemma XorBitsSplit(a: nat, b: nat, n: nat)
    requires n > 0
    ensures XorBits(a, b, n) % 2 == XorBit(a, b)
    ensures XorBits(a, b, n) / 2 == XorBits(a / 2, b / 2, n - 1)
  {
    assert XorBits(a, b, n) == XorBit(a, b) + 2 * XorBits(a / 2, b / 2, n - 1);
  }

  /** Exclusive or with the same value twice gives back an `n`-bit value. */
  lemma {:induction false} XorBitsTwice(a: nat, b: nat, n: nat)
    requires a < Pow2(n)
    ensures XorBits(XorBits(a, b, n), b, n) == a
  {
    if n > 0 {
      var r := XorBits(a, b, n);
      XorBitsSplit(a, b, n);
      XorBitsTwice(a / 2, b / 2, n - 1);
      assert XorBits(r, b, n) == XorBit(r, b) + 2 * XorBits(r / 2, b / 2, n - 1);
      assert XorBit(r, b) == a % 2;
    }
  }

  function Xor(a: byte, b: byte): byte {
    assert Pow2(8) == 256;
    XorBits(a, b, 8)
  }

  /** Counter mode spelled out: both directions XOR the data with a keystream
      drawn from the key and the counter parameters. */
  function XorKeystream(keystream: (CryptoKey, CtrParams, nat) -> byte, k: CryptoKey, pa: CtrParams, d: seq<byte>): (out: seq<byte>)
    ensures |out| == |d|
  {
    seq<byte>(|d|, i requires 0 <= i < |d| => Xor(d[i], keystream(k, pa, i)))
  }

  function XorCtr(keystream: (CryptoKey, CtrParams, nat) -> byte, badCounter: Thrown): (CipherOp, CtrParams, CryptoKey, seq<byte>) -> Outcome<seq<byte>> {
    (op: CipherOp, pa: CtrParams, k: CryptoKey, d: seq<byte>) =>
      if |pa.counter| != 16 then Threw(badCounter) else Done(XorKeystream(keystream, k, pa, d))
  }

  /** The keystream XOR satisfies both assumptions, so they are not vacuous. */
  lemma XorCtrIsCounterMode(importKey: KeyImport -> Outcome<CryptoKey>, keystream: (CryptoKey, CtrParams, nat) -> byte, badCounter: Thrown)
    ensures CtrInvertible(importKey, XorCtr(keystream, badCounter))
    ensures RejectsBadCounter(XorCtr(keystream, badCounter))
  {
    var cipher := XorCtr(keystream, badCounter);
    forall raw: seq<byte>, k: CryptoKey, pa: CtrParams, d: seq<byte> |
      importKey(AesCtrKeyImport(raw)) == Done(k) && cipher(EncryptOp, pa, k, d).Done?
      ensures cipher(DecryptOp, pa, k, cipher(EncryptOp, pa, k, d).value) == Done(d)
    {
      var c := XorKeystream(keystream, k, pa, d);
      var back := XorKeystream(keystream, k, pa, c);
      forall i: nat | i < |d| ensures back[i] == d[i] {
        XorBitsTwice(d[i], keystream(k, pa, i), 8);
      }
      assert back == d;
    }
  }
}
