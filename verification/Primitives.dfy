/**
 The cryptographic primitives the source takes from foreign libraries (pkg/crypto/x25519.go,
 pkg/crypto/chacha.go), as a record of functions and the laws relied on.
 */
module Primitives {
  import opened Bytes
  import opened Results

  const KEY_SIZE: nat := 32
  const TAG_SIZE: nat := 16
  const NONCE_SIZE: nat := 12

  type Key = k: seq<byte> | |k| == KEY_SIZE witness seq(KEY_SIZE, _ => 0)
  type Nonce = n: seq<byte> | |n| == NONCE_SIZE witness seq(NONCE_SIZE, _ => 0)

  /** What Wipe leaves behind. */
  function ZeroKey(): Key {
    seq(KEY_SIZE, _ => 0)
  }

  datatype Suite = Suite(
    hash: seq<byte> -> Key,
    hmac: (seq<byte>, seq<byte>) -> Key,
    public: Key -> Key,
    dh: (Key, Key) -> Option<Key>,
    seal: (Key, Nonce, seq<byte>, seq<byte>) -> seq<byte>,
    open: (Key, Nonce, seq<byte>, seq<byte>) -> Option<seq<byte>>)
  {
    /** Diffie-Hellman on a genuine public key succeeds and both sides get the same secret. */
    ghost predicate Agrees() {
      forall a: Key, b: Key :: dh(a, public(b)).Some? && dh(a, public(b)) == dh(b, public(a))
    }

    /** Sealing adds a tag, and opening with the same key, nonce and associated data undoes it. */
    ghost predicate OpensSealed() {
      forall k: Key, n: Nonce, p: seq<byte>, ad: seq<byte> ::
        |seal(k, n, p, ad)| == |p| + TAG_SIZE && open(k, n, seal(k, n, p, ad), ad) == Some(p)
    }

    ghost predicate Lawful() {
      Agrees() && OpensSealed()
    }
  }

  /** 4 zero bytes, then the counter in little-endian order. */
  function ConstructNonce(counter: uint64): Nonce {
    [0, 0, 0, 0] + LittleEndian(counter, 8)
  }

  /** Four zero bytes, then the counter with its least significant byte first. */
  lemma NonceMeans(counter: uint64)
    ensures ConstructNonce(counter)[..4] == [0, 0, 0, 0]
    ensures FromBigEndian(Reversed(ConstructNonce(counter)[4..])) == counter
  {
    assert ConstructNonce(counter)[4..] == LittleEndian(counter, 8);
    assert Reversed(LittleEndian(counter, 8)) == BigEndian(counter, 8);
    BigEndian64(counter);
  }

  /** Different counters never share a nonce. */
  lemma NoncesDiffer(a: uint64, b: uint64)
    requires ConstructNonce(a) == ConstructNonce(b)
    ensures a == b
  {
    NonceMeans(a);
    NonceMeans(b);
  }

  // ---- the laws can be met -----------------------------------------------------------

  function AddBytes(x: nat, y: nat): byte {
    (x + y) % 0x100
  }

  function AddKeys(a: Key, b: Key): Key {
    seq(KEY_SIZE, i requires 0 <= i < KEY_SIZE => AddBytes(a[i], b[i]))
  }

  function ToyOpen(sealed: seq<byte>): Option<seq<byte>> {
    if |sealed| < TAG_SIZE then None else Some(sealed[..|sealed| - TAG_SIZE])
  }

  /** A suite without any secrecy that satisfies every law: the laws are consistent. */
  const TOY: Suite := Suite(
    _ => ZeroKey(),
    (_, _) => ZeroKey(),
    k => k,
    (a, b) => Some(AddKeys(a, b)),
    (_, _, p, _) => p + seq(TAG_SIZE, _ => 0),
    (_, _, c, _) => ToyOpen(c))

  lemma LawsAreConsistent()
    ensures TOY.Lawful()
  {
    forall a: Key, b: Key
      ensures TOY.dh(a, TOY.public(b)).Some? && TOY.dh(a, TOY.public(b)) == TOY.dh(b, TOY.public(a))
    {
      assert AddKeys(a, b) == AddKeys(b, a);
    }
    forall k: Key, n: Nonce, p: seq<byte>, ad: seq<byte>
      ensures |TOY.seal(k, n, p, ad)| == |p| + TAG_SIZE
      ensures TOY.open(k, n, TOY.seal(k, n, p, ad), ad) == Some(p)
    {
      assert (p + seq(TAG_SIZE, _ => 0))[..|p|] == p;
    }
  }
}
