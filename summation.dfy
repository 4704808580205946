/**
 * `SummationHash<Summable>`: an unsigned accumulator, seeded with 0, to which
 * every byte of the object is added with silent wrap-around.
 */
module Summation {

  /** The unsigned `Summable` instantiations the model covers. */
  datatype Unsigned = UInt8 | UInt16 | UInt32 {

    /** `sizeof(Summable)`. */
    function Size(): nat
    {
      match this
      case UInt8 => 1
      case UInt16 => 2
      case UInt32 => 4
    }

    /** 2 to the power of the accumulator's width in bits. */
    function Modulus(): (m: nat)
      ensures m >= 0x100
    {
      match this
      case UInt8 => 0x100
      case UInt16 => 0x1_0000
      case UInt32 => 0x1_0000_0000
    }
  }

  /** The plain (unbounded) sum of the bytes. */
  function Sum(bytes: seq<bv8>): nat
  {
    if |bytes| == 0 then 0 else Sum(bytes[..|bytes| - 1]) + bytes[|bytes| - 1] as nat
  }

  /**
   * The accumulator after adding every byte with `hash += byte`, first byte
   * first: each addition wraps at the accumulator's modulus.
   */
  function HashOf(summable: Unsigned, bytes: seq<bv8>): (r: nat)
    ensures r < summable.Modulus()
  {
    if |bytes| == 0 then 0
    else (HashOf(summable, bytes[..|bytes| - 1]) + bytes[|bytes| - 1] as nat) % summable.Modulus()
  }

  /** The static `SummationHash<Summable>::hash`: the loop over the object's bytes. */
  method Hash(summable: Unsigned, obj: seq<bv8>) returns (hash: nat)
    ensures hash < summable.Modulus()
    ensures hash == Sum(obj) % summable.Modulus()
  {
    hash := 0;
    for index := 0 to |obj|
      invariant hash == HashOf(summable, obj[..index])
    {
      assert obj[..index + 1][..index] == obj[..index];
      hash := (hash + obj[index] as nat) % summable.Modulus();
    }
    assert obj[..|obj|] == obj;
    HashIsSumMod(summable, obj);
  }

  /** `SummationHash<Summable>::operator()`: forwards to the static `hash`. */
  method Call(summable: Unsigned, obj: seq<bv8>) returns (hash: nat)
    ensures hash == Sum(obj) % summable.Modulus()
  {
    hash := Hash(summable, obj);
  }

  /** Reducing an addend modulo 2^N before another addition changes nothing. */
  lemma ModAdd(summable: Unsigned, a: nat, b: nat)
    ensures (a % summable.Modulus() + b) % summable.Modulus() == (a + b) % summable.Modulus()
  {
    match summable
    case UInt8 =>
    case UInt16 =>
    case UInt32 =>
  }

  /** The wrapping accumulator is the sum of all bytes modulo 2^N. */
  lemma {:induction false} HashIsSumMod(summable: Unsigned, bytes: seq<bv8>)
    ensures HashOf(summable, bytes) == Sum(bytes) % summable.Modulus()
  {
    if |bytes| > 0 {
      var init := bytes[..|bytes| - 1];
      HashIsSumMod(summable, init);
      ModAdd(summable, Sum(init), bytes[|bytes| - 1] as nat);
    }
  }

  /** Appending the byte `b` adds `b` to the hash, modulo 2^N. */
  lemma AppendByte(summable: Unsigned, bytes: seq<bv8>, b: bv8)
    ensures HashOf(summable, bytes + [b]) == (HashOf(summable, bytes) + b as nat) % summable.Modulus()
  {
  }

  /** The sum of a concatenation is the sum of the sums. */
  lemma {:induction false} SumAppend(front: seq<bv8>, back: seq<bv8>)
    ensures Sum(front + back) == Sum(front) + Sum(back)
  {
    if |back| > 0 {
      var all := front + back;
      assert all[..|all| - 1] == front + back[..|back| - 1];
      assert all[|all| - 1] == back[|back| - 1];
      SumAppend(front, back[..|back| - 1]);
    } else {
      assert front + back == front;
    }
  }

  /** Taking out the byte at `j` takes its value off the sum. */
  lemma SumRemove(t: seq<bv8>, j: nat)
    requires j < |t|
    ensures Sum(t) == Sum(t[..j] + t[j + 1..]) + t[j] as nat
  {
    SumAround(t, j);
    SumAppend(t[..j], t[j + 1..]);
  }

  /** The sum depends only on the multiset of bytes. */
  lemma {:induction false} SumPermutation(s: seq<bv8>, t: seq<bv8>)
    requires multiset(s) == multiset(t)
    ensures Sum(s) == Sum(t)
    decreases |s|
  {
    if |s| > 0 {
      var init, last := s[..|s| - 1], s[|s| - 1];
      assert s == init + [last];
      assert last in multiset(t);
      var j :| 0 <= j < |t| && t[j] == last;
      var rest := t[..j] + t[j + 1..];
      assert t == t[..j] + [last] + t[j + 1..];
      assert multiset(init) == multiset(rest) by {
        assert multiset(t) == multiset(t[..j]) + multiset{last} + multiset(t[j + 1..]);
        assert multiset(rest) == multiset(t[..j]) + multiset(t[j + 1..]);
        assert multiset(s) == multiset(init) + multiset{last};
        assert multiset(init) == multiset(s) - multiset{last};
        assert multiset(rest) == multiset(t) - multiset{last};
      }
      SumPermutation(init, rest);
      SumRemove(t, j);
    } else {
      assert |t| == |multiset(t)| == 0;
    }
  }

  /** Any rearrangement of the bytes has the same hash: the order goes unseen. */
  lemma PermutationUndetected(summable: Unsigned, s: seq<bv8>, t: seq<bv8>)
    requires multiset(s) == multiset(t)
    ensures HashOf(summable, s) == HashOf(summable, t)
  {
    SumPermutation(s, t);
    HashIsSumMod(summable, s);
    HashIsSumMod(summable, t);
  }

  /** `n` bytes equal to 1. */
  function Ones(n: nat): (r: seq<bv8>)
    ensures |r| == n && forall i :: 0 <= i < n ==> r[i] == 1
  {
    seq(n, _ => 1)
  }

  /** `n` bytes equal to 1 sum to `n`. */
  lemma {:induction false} SumOfOnes(n: nat)
    ensures Sum(Ones(n)) == n
  {
    if n > 0 {
      assert Ones(n)[..n - 1] == Ones(n - 1);
      SumOfOnes(n - 1);
    }
  }

  /** 256 bytes equal to 1 wrap an 8-bit accumulator round to 0. */
  lemma Wraparound()
    ensures HashOf(UInt8, Ones(256)) == 0
  {
    SumOfOnes(256);
    HashIsSumMod(UInt8, Ones(256));
  }

  /** Two sums fewer than 256 apart, but not equal, leave different remainders modulo 2^N. */
  lemma ModDiffers(summable: Unsigned, a: nat, b: nat)
    requires a < b < a + 0x100
    ensures a % summable.Modulus() != b % summable.Modulus()
  {
    match summable
    case UInt8 =>
    case UInt16 =>
    case UInt32 =>
  }

  /** The sum split around position `k`. */
  lemma SumAround(s: seq<bv8>, k: nat)
    requires k < |s|
    ensures Sum(s) == Sum(s[..k]) + s[k] as nat + Sum(s[k + 1..])
  {
    assert s == s[..k] + [s[k]] + s[k + 1..];
    SumAppend(s[..k] + [s[k]], s[k + 1..]);
    SumAppend(s[..k], [s[k]]);
    assert [s[k]][..0] == [];
  }

  /**
   * With an accumulator of at least 8 bits, changing exactly one byte always
   * changes the hash.
   */
  lemma SingleByteChangeDetected(summable: Unsigned, s: seq<bv8>, t: seq<bv8>, k: nat)
    requires |s| == |t| && k < |s|
    requires s[k] != t[k]
    requires forall i :: 0 <= i < |s| && i != k ==> s[i] == t[i]
    ensures HashOf(summable, s) != HashOf(summable, t)
  {
    assert s[..k] == t[..k];
    assert s[k + 1..] == t[k + 1..];
    SumAround(s, k);
    SumAround(t, k);
    HashIsSumMod(summable, s);
    HashIsSumMod(summable, t);
    if s[k] < t[k] {
      ModDiffers(summable, Sum(s), Sum(t));
    } else {
      ModDiffers(summable, Sum(t), Sum(s));
    }
  }
}
