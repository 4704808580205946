/**
 * `KnuthHash`: a 32-bit accumulator seeded with the object's byte count that
 * mixes in each byte, in increasing address order, by rotating the
 * accumulator left by 5 bits and XOR-ing in the byte.
 */
module Knuth {

  /** `hash` as the static `KnuthHash::hash` writes it: `uint32_t`. */
  type HashValue = bv32

  /** The seed `hash_type hash { sizeof(Type) }`, held as a `uint32_t`. */
  function Seed(size: nat): HashValue
  {
    (size % 0x1_0000_0000) as bv32
  }

  /** One iteration of the loop body, written with the source's two shifts. */
  function Step(hash: HashValue, byte: bv8): HashValue
  {
    ((hash << 5) ^ (hash >> 27)) ^ (byte as bv32)
  }

  /** The two shifted halves never overlap, so a step is a rotation and an XOR. */
  lemma StepIsRotate(hash: HashValue, byte: bv8)
    ensures Step(hash, byte) == hash.RotateLeft(5) ^ (byte as bv32)
  {
  }

  /** The step undone: for a known byte, the accumulator before the step. */
  function Unstep(hash: HashValue, byte: bv8): HashValue
  {
    (hash ^ (byte as bv32)).RotateRight(5)
  }

  /** For a fixed byte a step is a bijection on the accumulator. */
  lemma UnstepStep(hash: HashValue, byte: bv8)
    ensures Unstep(Step(hash, byte), byte) == hash
  {
  }

  /** For a fixed accumulator a step tells different bytes apart. */
  lemma StepInjectiveInByte(hash: HashValue, b1: bv8, b2: bv8)
    requires b1 != b2
    ensures Step(hash, b1) != Step(hash, b2)
  {
  }

  /** The left fold of `Step` over `bytes`, starting from `hash`, first byte first. */
  function Fold(hash: HashValue, bytes: seq<bv8>): HashValue
  {
    if |bytes| == 0 then hash else Step(Fold(hash, bytes[..|bytes| - 1]), bytes[|bytes| - 1])
  }

  /** Result of `KnuthHash::hash` on an object whose bytes are `obj`. */
  function HashOf(obj: seq<bv8>): HashValue
  {
    Fold(Seed(|obj|), obj)
  }

  /** The static `KnuthHash::hash`: the loop over the object's bytes. */
  method Hash(obj: seq<bv8>) returns (hash: HashValue)
    ensures hash == HashOf(obj)
  {
    hash := Seed(|obj|);
    for index := 0 to |obj|
      invariant hash == Fold(Seed(|obj|), obj[..index])
    {
      assert obj[..index + 1][..index] == obj[..index];
      hash := ((hash << 5) ^ (hash >> 27)) ^ (obj[index] as bv32);
    }
    assert obj[..|obj|] == obj;
  }

  /** `KnuthHash::operator()`: forwards to the static `hash`. */
  method Call(obj: seq<bv8>) returns (hash: HashValue)
    ensures hash == HashOf(obj)
  {
    hash := Hash(obj);
  }

  /** Folding over a concatenation folds over each part in turn. */
  lemma {:induction false} FoldAppend(hash: HashValue, front: seq<bv8>, back: seq<bv8>)
    ensures Fold(hash, front + back) == Fold(Fold(hash, front), back)
  {
    if |back| > 0 {
      var all := front + back;
      assert all[..|all| - 1] == front + back[..|back| - 1];
      assert all[|all| - 1] == back[|back| - 1];
      FoldAppend(hash, front, back[..|back| - 1]);
    } else {
      assert front + back == front;
    }
  }

  /** For a fixed byte string the fold is injective in its starting accumulator. */
  lemma {:induction false} FoldInjective(h1: HashValue, h2: HashValue, bytes: seq<bv8>)
    requires Fold(h1, bytes) == Fold(h2, bytes)
    ensures h1 == h2
  {
    if |bytes| > 0 {
      var init, last := bytes[..|bytes| - 1], bytes[|bytes| - 1];
      UnstepStep(Fold(h1, init), last);
      UnstepStep(Fold(h2, init), last);
      FoldInjective(h1, h2, init);
    }
  }

  /**
   * Two equal-length objects whose bytes differ in exactly one position
   * always hash differently.
   */
  lemma SingleByteChangeDetected(s: seq<bv8>, t: seq<bv8>, k: nat)
    requires |s| == |t| && k < |s|
    requires s[k] != t[k]
    requires forall i :: 0 <= i < |s| && i != k ==> s[i] == t[i]
    ensures HashOf(s) != HashOf(t)
  {
    var seed := Seed(|s|);
    assert s[..k] == t[..k];
    assert s[k + 1..] == t[k + 1..];
    var hs := Fold(seed, s[..k + 1]);
    var ht := Fold(seed, t[..k + 1]);
    assert s[..k + 1][..k] == s[..k];
    assert t[..k + 1][..k] == t[..k];
    StepInjectiveInByte(Fold(seed, s[..k]), s[k], t[k]);
    assert hs != ht;
    assert s == s[..k + 1] + s[k + 1..];
    assert t == t[..k + 1] + t[k + 1..];
    FoldAppend(seed, s[..k + 1], s[k + 1..]);
    FoldAppend(seed, t[..k + 1], t[k + 1..]);
    if HashOf(s) == HashOf(t) {
      FoldInjective(hs, ht, s[k + 1..]);
    }
  }

  /** Four zero bytes: the seed 4 rotated left four times by 5. */
  lemma FourZeroBytes()
    ensures HashOf([0, 0, 0, 0]) == 0x0040_0000
  {
    var z: seq<bv8> := [0, 0, 0, 0];
    assert Seed(4) == 4;
    assert Fold(4, z[..1]) == 0x80;
    assert z[..2][..1] == z[..1];
    assert Fold(4, z[..2]) == 0x1000;
    assert z[..3][..2] == z[..2];
    assert Fold(4, z[..3]) == 0x2_0000;
    assert z[..4] == z;
  }

  /** Eight zero bytes: the rotation wraps round once. */
  lemma EightZeroBytes()
    ensures HashOf([0, 0, 0, 0, 0, 0, 0, 0]) == 0x0000_0800
  {
    var z: seq<bv8> := [0, 0, 0, 0, 0, 0, 0, 0];
    assert Seed(8) == 8;
    assert Fold(8, z[..1]) == 0x100;
    assert z[..2][..1] == z[..1];
    assert Fold(8, z[..2]) == 0x2000;
    assert z[..3][..2] == z[..2];
    assert Fold(8, z[..3]) == 0x4_0000;
    assert z[..4][..3] == z[..3];
    assert Fold(8, z[..4]) == 0x80_0000;
    assert z[..5][..4] == z[..4];
    assert Fold(8, z[..5]) == 0x1000_0000;
    assert z[..6][..5] == z[..5];
    assert Fold(8, z[..6]) == 0x0000_0002;
    assert z[..7][..6] == z[..6];
    assert Fold(8, z[..7]) == 0x0000_0040;
    assert z[..8] == z;
  }

  /** The byte count takes part: objects of 4 and 8 zero bytes hash apart. */
  lemma SeedParticipates()
    ensures HashOf([0, 0, 0, 0]) != HashOf([0, 0, 0, 0, 0, 0, 0, 0])
  {
    FourZeroBytes();
    EightZeroBytes();
  }
}
