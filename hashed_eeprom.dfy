/**
 * `Hashing::EEPROM`: a record `[hash bytes][object bytes]` kept at an address
 * of the persistent medium. `PutWithHash` writes the hash of the object and
 * then the object; `GetWithHash` reads both back into the caller's object and
 * reports whether the stored hash matches the hash of what was read.
 *
 * Each operation comes in two forms, as in the source: with the hash given as
 * a type whose static `hash` is called (`HashType`) and with the hash given as
 * a function object (`Hasher`).
 */
module HashedEeprom {
  import Knuth
  import Summation
  import LittleEndian
  import Bytes

  /** `mem` with `bytes` copied over it from `address` on. */
  function Splice(mem: seq<bv8>, address: nat, bytes: seq<bv8>): (r: seq<bv8>)
    requires address + |bytes| <= |mem|
    ensures |r| == |mem|
    ensures forall i :: 0 <= i < |mem| ==>
      r[i] == if address <= i < address + |bytes| then bytes[i - address] else mem[i]
  {
    mem[..address] + bytes + mem[address + |bytes|..]
  }

  /**
   * The persistent medium (`EEPROMClass`): a fixed array of bytes with
   * `put` and `get` as plain byte copies.
   */
  class Medium {
    var memory: array<bv8>

    /** A medium holding `contents`, whatever was left there before. */
    constructor (contents: seq<bv8>)
      ensures fresh(memory)
      ensures memory[..] == contents
    {
      memory := new bv8[|contents|](i requires 0 <= i < |contents| => contents[i]);
    }

    /** `EEPROMClass::put`: copies `bytes` into memory from `address` on. */
    method Put(address: nat, bytes: seq<bv8>)
      requires address + |bytes| <= memory.Length
      modifies memory
      ensures memory[..] == Splice(old(memory[..]), address, bytes)
    {
      for index := 0 to |bytes|
        invariant forall i :: 0 <= i < memory.Length ==>
          memory[i] == if address <= i < address + index then bytes[i - address] else old(memory[i])
      {
        memory[address + index] := bytes[index];
      }
      assert memory[..] == Splice(old(memory[..]), address, bytes);
    }

    /** `EEPROMClass::get`: fills `dest` with the bytes from `address` on. */
    method Get(address: nat, dest: array<bv8>)
      requires dest != memory
      requires address + dest.Length <= memory.Length
      modifies dest
      ensures dest[..] == memory[address..address + dest.Length]
    {
      for index := 0 to dest.Length
        invariant dest[..index] == memory[address..address + index]
      {
        dest[index] := memory[address + index];
        assert dest[..index + 1] == dest[..index] + [dest[index]];
      }
      assert dest[..] == dest[..dest.Length];
    }
  }

  /** A hash function object: its `hash_type` is `width` bytes wide. */
  datatype Hasher = Hasher(width: nat, hash: seq<bv8> -> nat)

  /**
   * A function object whose every result fits in its `hash_type`, as the C++
   * return type `decltype(hash(object))` guarantees.
   */
  type HashObject = h: Hasher | forall bytes :: h.hash(bytes) < LittleEndian.Pow256(h.width)
    witness Hasher(0, _ => 0)

  /** A hash type with a static `hash`, as the first overloads take it. */
  datatype HashType = KnuthHash | SummationHash(summable: Summation.Unsigned) {

    /** `sizeof(Hash::hash_type)`. */
    function Width(): nat
    {
      match this
      case KnuthHash => 4
      case SummationHash(summable) => summable.Size()
    }

    /** The value `Hash::hash(object)` returns; it always fits its type. */
    function HashOf(bytes: seq<bv8>): (r: nat)
      ensures r < LittleEndian.Pow256(Width())
    {
      LittleEndian.Pow256Values();
      match this
      case KnuthHash => Knuth.HashOf(bytes) as nat
      case SummationHash(summable) => Summation.HashOf(summable, bytes)
    }

    /** `Hash::hash(object)`: runs the hash type's own loop. */
    method Hash(bytes: seq<bv8>) returns (r: nat)
      ensures r == HashOf(bytes)
    {
      match this
      case KnuthHash =>
        var h := Knuth.Hash(bytes);
        r := h as nat;
      case SummationHash(summable) =>
        r := Summation.Hash(summable, bytes);
        Summation.HashIsSumMod(summable, bytes);
    }

    /** `KnuthHash{}` or `SummationHash<Summable>{}`: the function object of this type. */
    function FunctionObject(): (h: HashObject)
      ensures h.width == Width()
      ensures forall bytes :: h.hash(bytes) == HashOf(bytes)
    {
      Hasher(Width(), bytes => HashOf(bytes))
    }

    /** Both hash types see every change of a single byte. */
    lemma SingleByteChangeDetected(s: seq<bv8>, t: seq<bv8>, k: nat)
      requires |s| == |t| && k < |s|
      requires s[k] != t[k]
      requires forall i :: 0 <= i < |s| && i != k ==> s[i] == t[i]
      ensures HashOf(s) != HashOf(t)
    {
      match this
      case KnuthHash =>
        Knuth.SingleByteChangeDetected(s, t, k);
        Bytes.WordBack(Knuth.HashOf(s));
        Bytes.WordBack(Knuth.HashOf(t));
      case SummationHash(summable) =>
        Summation.SingleByteChangeDetected(summable, s, t, k);
    }
  }

  /** The medium after the two puts of `putWithHash` of `obj` with hash value `hash`. */
  function WriteRecord(mem: seq<bv8>, address: nat, width: nat, hash: nat, obj: seq<bv8>): (r: seq<bv8>)
    requires address + width + |obj| <= |mem|
    ensures |r| == |mem|
  {
    Splice(Splice(mem, address, LittleEndian.Encode(hash, width)), address + width, obj)
  }

  /** The hash value `getWithHash` reads from `address` into `storedHash`. */
  function StoredHash(mem: seq<bv8>, address: nat, width: nat): nat
    requires address + width <= |mem|
  {
    LittleEndian.Decode(mem[address..address + width])
  }

  /** The object bytes `getWithHash` reads from `address + width`. */
  function StoredObject(mem: seq<bv8>, address: nat, width: nat, size: nat): seq<bv8>
    requires address + width + size <= |mem|
  {
    mem[address + width..address + width + size]
  }

  /** The static `putWithHash<Hash>(address, object)`. */
  method PutWithHash(eeprom: Medium, address: nat, obj: array<bv8>, hashType: HashType)
    requires obj != eeprom.memory
    requires address + hashType.Width() + obj.Length <= eeprom.memory.Length
    modifies eeprom.memory
    ensures obj[..] == old(obj[..])
    ensures eeprom.memory[..] ==
      WriteRecord(old(eeprom.memory[..]), address, hashType.Width(), hashType.HashOf(obj[..]), obj[..])
  {
    var hash := hashType.Hash(obj[..]);
    eeprom.Put(address, LittleEndian.Encode(hash, hashType.Width()));
    eeprom.Put(address + hashType.Width(), obj[..]);
  }

  /** The static `getWithHash<Hash>(address, object)`. */
  method GetWithHash(eeprom: Medium, address: nat, obj: array<bv8>, hashType: HashType) returns (ok: bool)
    requires obj != eeprom.memory
    requires address + hashType.Width() + obj.Length <= eeprom.memory.Length
    modifies obj
    ensures eeprom.memory[..] == old(eeprom.memory[..])
    ensures obj[..] == StoredObject(eeprom.memory[..], address, hashType.Width(), obj.Length)
    ensures ok <==> StoredHash(eeprom.memory[..], address, hashType.Width()) == hashType.HashOf(obj[..])
  {
    var storedHash := new bv8[hashType.Width()];
    eeprom.Get(address, storedHash);
    eeprom.Get(address + hashType.Width(), obj);
    var hash := hashType.Hash(obj[..]);
    ok := LittleEndian.Decode(storedHash[..]) == hash;
  }

  /** `putWithHash(address, object, hash)` with a function object. */
  method PutWithHashFn(eeprom: Medium, address: nat, obj: array<bv8>, hasher: HashObject)
    requires obj != eeprom.memory
    requires address + hasher.width + obj.Length <= eeprom.memory.Length
    modifies eeprom.memory
    ensures obj[..] == old(obj[..])
    ensures eeprom.memory[..] ==
      WriteRecord(old(eeprom.memory[..]), address, hasher.width, hasher.hash(obj[..]), obj[..])
  {
    eeprom.Put(address, LittleEndian.Encode(hasher.hash(obj[..]), hasher.width));
    eeprom.Put(address + hasher.width, obj[..]);
  }

  /** `getWithHash(address, object, hash)` with a function object. */
  method GetWithHashFn(eeprom: Medium, address: nat, obj: array<bv8>, hasher: HashObject) returns (ok: bool)
    requires obj != eeprom.memory
    requires address + hasher.width + obj.Length <= eeprom.memory.Length
    modifies obj
    ensures eeprom.memory[..] == old(eeprom.memory[..])
    ensures obj[..] == StoredObject(eeprom.memory[..], address, hasher.width, obj.Length)
    ensures ok <==> StoredHash(eeprom.memory[..], address, hasher.width) == hasher.hash(obj[..])
  {
    var storedHash := new bv8[hasher.width];
    eeprom.Get(address, storedHash);
    eeprom.Get(address + hasher.width, obj);
    ok := LittleEndian.Decode(storedHash[..]) == hasher.hash(obj[..]);
  }

  /**
   * Layout and frame of a record write: the encoded hash at `[address,
   * address + width)`, the object right after it, every other byte as before.
   */
  lemma WriteRecordLayout(mem: seq<bv8>, address: nat, width: nat, hash: nat, obj: seq<bv8>)
    requires address + width + |obj| <= |mem|
    ensures WriteRecord(mem, address, width, hash, obj)[address..address + width] == LittleEndian.Encode(hash, width)
    ensures WriteRecord(mem, address, width, hash, obj)[address + width..address + width + |obj|] == obj
    ensures forall i :: 0 <= i < |mem| && !(address <= i < address + width + |obj|) ==>
      WriteRecord(mem, address, width, hash, obj)[i] == mem[i]
  {
  }

  /** Reading back a record just written gives the object and the hash value. */
  lemma RecordRoundTrip(mem: seq<bv8>, address: nat, width: nat, hash: nat, obj: seq<bv8>)
    requires address + width + |obj| <= |mem|
    requires hash < LittleEndian.Pow256(width)
    ensures StoredObject(WriteRecord(mem, address, width, hash, obj), address, width, |obj|) == obj
    ensures StoredHash(WriteRecord(mem, address, width, hash, obj), address, width) == hash
  {
    WriteRecordLayout(mem, address, width, hash, obj);
    LittleEndian.DecodeEncode(hash, width);
  }

  /**
   * Round trip with a hash type: after `PutWithHash` of `obj`, `GetWithHash`
   * returns `obj` and reports a match.
   */
  lemma RoundTrip(hashType: HashType, mem: seq<bv8>, address: nat, obj: seq<bv8>)
    requires address + hashType.Width() + |obj| <= |mem|
    ensures var written := WriteRecord(mem, address, hashType.Width(), hashType.HashOf(obj), obj);
      && StoredObject(written, address, hashType.Width(), |obj|) == obj
      && StoredHash(written, address, hashType.Width()) == hashType.HashOf(obj)
  {
    RecordRoundTrip(mem, address, hashType.Width(), hashType.HashOf(obj), obj);
  }

  /**
   * Round trip with a function object: after `PutWithHashFn` of `obj`,
   * `GetWithHashFn` returns `obj` and reports a match.
   */
  lemma RoundTripFn(hasher: HashObject, mem: seq<bv8>, address: nat, obj: seq<bv8>)
    requires address + hasher.width + |obj| <= |mem|
    ensures var written := WriteRecord(mem, address, hasher.width, hasher.hash(obj), obj);
      && StoredObject(written, address, hasher.width, |obj|) == obj
      && StoredHash(written, address, hasher.width) == hasher.hash(obj)
  {
    RecordRoundTrip(mem, address, hasher.width, hasher.hash(obj), obj);
  }

  /**
   * A record write to a range disjoint from `[address, address + width +
   * size)` changes neither the stored hash nor the stored object there.
   */
  lemma DisjointWritePreserves(mem: seq<bv8>, address: nat, width: nat, size: nat,
                               other: nat, otherWidth: nat, otherHash: nat, otherObj: seq<bv8>)
    requires address + width + size <= |mem|
    requires other + otherWidth + |otherObj| <= |mem|
    requires other + otherWidth + |otherObj| <= address || address + width + size <= other
    ensures var after := WriteRecord(mem, address := other, width := otherWidth, hash := otherHash, obj := otherObj);
      && StoredHash(after, address, width) == StoredHash(mem, address, width)
      && StoredObject(after, address, width, size) == StoredObject(mem, address, width, size)
  {
    var after := WriteRecord(mem, other, otherWidth, otherHash, otherObj);
    WriteRecordLayout(mem, other, otherWidth, otherHash, otherObj);
    assert after[address..address + width] == mem[address..address + width];
    assert after[address + width..address + width + size] == mem[address + width..address + width + size];
  }

  /**
   * A torn record: after `PutWithHash`, one byte of the object segment is
   * overwritten with a different value. The verified read reports a mismatch.
   */
  lemma TornRecordDetected(hashType: HashType, mem: seq<bv8>, address: nat, obj: seq<bv8>, k: nat, b: bv8)
    requires address + hashType.Width() + |obj| <= |mem|
    requires k < |obj| && b != obj[k]
    ensures var torn := WriteRecord(mem, address, hashType.Width(), hashType.HashOf(obj), obj)
                          [address + hashType.Width() + k := b];
      StoredHash(torn, address, hashType.Width())
        != hashType.HashOf(StoredObject(torn, address, hashType.Width(), |obj|))
  {
    var width := hashType.Width();
    var written := WriteRecord(mem, address, width, hashType.HashOf(obj), obj);
    var torn := written[address + width + k := b];
    RoundTrip(hashType, mem, address, obj);
    assert torn[address..address + width] == written[address..address + width];
    var read := StoredObject(torn, address, width, |obj|);
    assert read == obj[k := b];
    hashType.SingleByteChangeDetected(obj, read, k);
  }

  /**
   * Power lost between the two puts: the hash of `obj` is written but the
   * object segment still holds older bytes that differ from `obj` in one
   * position. The verified read reports a mismatch.
   */
  lemma HashOnlyWriteDetected(hashType: HashType, mem: seq<bv8>, address: nat, obj: seq<bv8>, k: nat)
    requires address + hashType.Width() + |obj| <= |mem|
    requires k < |obj|
    requires StoredObject(mem, address, hashType.Width(), |obj|)[k] != obj[k]
    requires forall i :: 0 <= i < |obj| && i != k ==>
      StoredObject(mem, address, hashType.Width(), |obj|)[i] == obj[i]
    ensures var torn := Splice(mem, address, LittleEndian.Encode(hashType.HashOf(obj), hashType.Width()));
      StoredHash(torn, address, hashType.Width())
        != hashType.HashOf(StoredObject(torn, address, hashType.Width(), |obj|))
  {
    var width := hashType.Width();
    var e := LittleEndian.Encode(hashType.HashOf(obj), width);
    var torn := Splice(mem, address, e);
    assert torn[address..address + width] == e;
    LittleEndian.DecodeEncode(hashType.HashOf(obj), width);
    var stale := StoredObject(mem, address, width, |obj|);
    assert StoredObject(torn, address, width, |obj|) == stale;
    hashType.SingleByteChangeDetected(obj, stale, k);
  }

  /**
   * The function-object overloads given `KnuthHash{}` or
   * `SummationHash<Summable>{}` write the same record and reach the same
   * verdict as the static overloads given that type.
   */
  lemma FunctionObjectMatchesStatic(hashType: HashType, mem: seq<bv8>, address: nat, obj: seq<bv8>)
    requires address + hashType.Width() + |obj| <= |mem|
    ensures var fo := hashType.FunctionObject();
      && WriteRecord(mem, address, fo.width, fo.hash(obj), obj)
         == WriteRecord(mem, address, hashType.Width(), hashType.HashOf(obj), obj)
      && (StoredHash(mem, address, fo.width) == fo.hash(StoredObject(mem, address, fo.width, |obj|))
          <==> StoredHash(mem, address, hashType.Width())
               == hashType.HashOf(StoredObject(mem, address, hashType.Width(), |obj|)))
  {
  }

  /**
   * `putWithHash(address, object, hash)` given the function object of a hash
   * type writes exactly what the static `putWithHash<Hash>` writes.
   */
  method FunctionObjectWriteMatchesStatic(eeprom: Medium, address: nat, obj: array<bv8>, hashType: HashType)
    requires obj != eeprom.memory
    requires address + hashType.Width() + obj.Length <= eeprom.memory.Length
    modifies eeprom.memory
    ensures eeprom.memory[..] ==
      WriteRecord(old(eeprom.memory[..]), address, hashType.Width(), hashType.HashOf(obj[..]), obj[..])
  {
    PutWithHashFn(eeprom, address, obj, hashType.FunctionObject());
  }

  /**
   * `getWithHash(address, object, hash)` given the function object of a hash
   * type reads the same object and reaches the same verdict as the static
   * `getWithHash<Hash>` at the same address.
   */
  method FunctionObjectReadMatchesStatic(eeprom: Medium, address: nat, obj: array<bv8>, hashType: HashType)
    returns (viaObject: bool, viaType: bool)
    requires obj != eeprom.memory
    requires address + hashType.Width() + obj.Length <= eeprom.memory.Length
    modifies obj
    ensures viaObject == viaType
    ensures obj[..] == StoredObject(eeprom.memory[..], address, hashType.Width(), obj.Length)
  {
    viaObject := GetWithHashFn(eeprom, address, obj, hashType.FunctionObject());
    ghost var first := obj[..];
    viaType := GetWithHash(eeprom, address, obj, hashType);
    assert obj[..] == first;
  }

  /**
   * A `PutWithHash` followed by a `GetWithHash` at the same address with the
   * same hash type: the read reports a match and fills `target` with the
   * bytes of `source`.
   */
  method PutThenGet(eeprom: Medium, address: nat, source: array<bv8>, target: array<bv8>, hashType: HashType)
    returns (ok: bool)
    requires source != eeprom.memory && target != eeprom.memory
    requires source.Length == target.Length
    requires address + hashType.Width() + source.Length <= eeprom.memory.Length
    modifies eeprom.memory, target
    ensures ok
    ensures target[..] == old(source[..])
  {
    ghost var before := eeprom.memory[..];
    ghost var obj := source[..];
    PutWithHash(eeprom, address, source, hashType);
    ok := GetWithHash(eeprom, address, target, hashType);
    RoundTrip(hashType, before, address, obj);
  }

  /**
   * The end-to-end scenario: a 4-byte record `{10, 20}` (two 16-bit fields)
   * written with `KnuthHash` at address 0 reads back verified; after its
   * first object byte alone is rewritten, making it `{11, 20}`, the read
   * reports a mismatch.
   */
  method TornWriteScenario() returns (first: bool, recovered: seq<bv8>, second: bool)
    ensures first && recovered == [10, 0, 20, 0]
    ensures !second
  {
    var eeprom := new Medium(seq(16, _ => 0xFF));
    ghost var erased := eeprom.memory[..];
    var record := new bv8[4];
    record[0], record[1], record[2], record[3] := 10, 0, 20, 0;
    ghost var obj := record[..];
    assert obj == [10, 0, 20, 0];
    PutWithHash(eeprom, 0, record, KnuthHash);
    ghost var written := eeprom.memory[..];
    assert written == WriteRecord(erased, 0, 4, KnuthHash.HashOf(obj), obj);
    var readBack := new bv8[4];
    first := GetWithHash(eeprom, 0, readBack, KnuthHash);
    RoundTrip(KnuthHash, erased, 0, obj);
    recovered := readBack[..];
    eeprom.Put(4, [11]);
    ghost var torn := written[4 := 11];
    assert eeprom.memory[..] == torn;
    TornRecordDetected(KnuthHash, erased, 0, obj, 0, 11);
    second := GetWithHash(eeprom, 0, readBack, KnuthHash);
    assert readBack[..] == StoredObject(torn, 0, 4, 4);
  }
}
