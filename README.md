# Hashed EEPROM records, modelled in Dafny

This project models the ArduinoHashing header library. The library stores a
fixed-size object in EEPROM next to a short hash of its bytes. It reads the
object back and checks that the stored hash still matches. It has three parts:

- `KnuthHash`: a 32-bit hash. The accumulator starts at the object's byte
  count. Each byte then does `hash = ((hash << 5) ^ (hash >> 27)) ^ byte`.
- `SummationHash<Summable>`: an unsigned accumulator that starts at 0. Each
  byte is added to it with silent wrap-around.
- `Hashing::EEPROM::putWithHash` / `getWithHash`: they write and read the
  record `[hash bytes][object bytes]` at an address. Each comes in two forms.
  In one the hash is a type with a static `hash`. In the other it is a
  function object.

Every object is modelled as its byte representation. Where the source passes
the object by non-const reference (`putWithHash`/`getWithHash`, EEPROM.h:30,
39, 56 and 65), it is an `array<bv8>`. Where it passes a `const` reference
(the hash functions and their `operator()`), it is a `seq<bv8>`. The modules are:

- `Knuth` (`knuth.dfy`). The loop method `Knuth.Hash` is proved equal to a
  left fold, `Knuth.Fold`, of the source's step.
- `Summation` (`summation.dfy`). The loop method `Summation.Hash` is proved
  equal to the recursive wrapping sum `Summation.HashOf`. That sum is proved
  equal to the plain byte sum modulo 2^N.
- `LittleEndian` and `Bytes` (`little_endian.dfy`). These give the byte
  representation of a hash value held on the medium, with its round-trip
  lemmas.
- `HashedEeprom` (`hashed_eeprom.dfy`). The medium `EEPROMClass` is the class
  `Medium`: a byte array with byte-copy `Put` and `Get`. The four record
  operations take the medium as a parameter. `HashType` stands for the static
  hash type (`KnuthHash` or `SummationHash<Summable>`). `Hasher` stands for a
  function object: the hash's width in bytes and a function from bytes to
  the hash value. `HashObject` is the subset of `Hasher` whose every result
  fits in that width, as the C++ result type `hash_type` guarantees. The
  functions `WriteRecord`, `StoredHash` and `StoredObject` give the medium
  after a write and the two values a read returns. Lemmas about these functions state the record properties.

## Model

| member | source | states |
|---|---|---|
| `Knuth.StepIsRotate` | Hashing/Functions/Knuth.h:42 | one loop step `((h << 5) ^ (h >> 27)) ^ byte` equals the 32-bit rotate-left of `h` by 5, XOR the zero-extended byte |
| `Knuth.UnstepStep` | Hashing/Functions/Knuth.h:42 | for a fixed byte the step can be undone (rotate right after the XOR), so it is a bijection on the accumulator |
| `Knuth.StepInjectiveInByte` | Hashing/Functions/Knuth.h:42 | for a fixed accumulator, different bytes give different step results |
| `Knuth.Hash` | Hashing/Functions/Knuth.h:34-45 | the loop starts from the byte count S as a `uint32_t` and, after `index` iterations, holds the fold of the step over the first `index` bytes in increasing order; the 32-bit result is that fold over all bytes |
| `Knuth.Call` | Hashing/Functions/Knuth.h:28-32 | `operator()` returns exactly what the static `hash` returns |
| `Knuth.FoldAppend` | Hashing/Functions/Knuth.h:41-42 | processing a concatenation of bytes is processing the first part, then the second from where the first left off |
| `Knuth.FoldInjective` | Hashing/Functions/Knuth.h:41-42 | for the same remaining bytes, different accumulators always end different |
| `Knuth.SingleByteChangeDetected` | Hashing/Functions/Knuth.h:39-42 | two equal-length objects that differ in exactly one byte always have different hashes |
| `Knuth.FourZeroBytes` | Hashing/Functions/Knuth.h:39-42 | four zero bytes hash to 0x00400000 |
| `Knuth.EightZeroBytes` | Hashing/Functions/Knuth.h:39-42 | eight zero bytes hash to 0x00000800 |
| `Knuth.SeedParticipates` | Hashing/Functions/Knuth.h:39 | the byte-count seed takes part: zero objects of 4 and 8 bytes hash differently |
| `Summation.Unsigned.Modulus` | Hashing/Functions/Summation.h:24 | an 8-, 16- or 32-bit unsigned `hash_type` wraps at 2^N, which is at least 256 |
| `Summation.HashOf` | Hashing/Functions/Summation.h:37-40 | the wrapping accumulator, starting at 0 and adding each byte in turn, is always below 2^N |
| `Summation.Hash` | Hashing/Functions/Summation.h:32-43 | the loop starts at 0, adds each byte with wrap-around, and returns the sum of all bytes modulo 2^N |
| `Summation.Call` | Hashing/Functions/Summation.h:26-30 | `operator()` returns exactly the static `hash`, the byte sum modulo 2^N |
| `Summation.HashIsSumMod` | Hashing/Functions/Summation.h:39-40 | adding with wrap-around after every byte equals the plain sum of all bytes modulo 2^N |
| `Summation.AppendByte` | Hashing/Functions/Summation.h:40 | appending byte `b` adds `b` to the hash modulo 2^N |
| `Summation.SumPermutation` | Hashing/Functions/Summation.h:39-40 | the byte sum depends only on the multiset of bytes |
| `Summation.PermutationUndetected` | Hashing/Functions/Summation.h:39-40 | any permutation of the bytes has the same hash: the hash does not see order |
| `Summation.Wraparound` | Hashing/Functions/Summation.h:39-40 | 256 bytes equal to 1, summed into an 8-bit accumulator, give 0 |
| `Summation.SingleByteChangeDetected` | Hashing/Functions/Summation.h:40 | with an accumulator of 8, 16 or 32 bits, changing exactly one byte always changes the hash |
| `LittleEndian.Encode` | Hashing/EEPROM.h:34 | the stored form of a hash value is exactly `sizeof(hash_type)` bytes |
| `LittleEndian.Decode` | Hashing/EEPROM.h:45 | the value read back from `H` bytes is below 256^H |
| `LittleEndian.DecodeEncode` | Hashing/EEPROM.h:34-45 | a hash value that fits in `H` bytes is read back as written |
| `LittleEndian.EncodeDecode` | Hashing/EEPROM.h:45 | every `H`-byte string is the stored form of the value it is read as |
| `HashedEeprom.Medium.constructor` | Hashing/EEPROM.h:19 | a medium of the given contents, whatever they are (erased, stale or torn) |
| `HashedEeprom.Medium.Put` | Hashing/EEPROM.h:34-35 | `EEPROMClass::put` replaces bytes `[a, a+n)` with the value's bytes and changes no other byte |
| `HashedEeprom.Medium.Get` | Hashing/EEPROM.h:45-46 | `EEPROMClass::get` fills the destination with bytes `[a, a+n)` of the medium |
| `HashedEeprom.HashType.HashOf` | Hashing/EEPROM.h:34 | the value `Hash::hash(object)` for `KnuthHash` or `SummationHash<Summable>` always fits in `sizeof(hash_type)` bytes |
| `HashedEeprom.HashType.Hash` | Hashing/EEPROM.h:34 | the static call `Hash::hash(object)` runs that type's loop and returns its hash |
| `HashedEeprom.HashType.SingleByteChangeDetected` | Hashing/Functions/Knuth.h:42 | both hash types always tell apart two equal-length objects that differ in one byte (for `SummationHash` through `Summation.SingleByteChangeDetected`, Hashing/Functions/Summation.h:40) |
| `HashedEeprom.PutWithHash` | Hashing/EEPROM.h:29-36 | the medium becomes the old medium with the encoded hash of the object put at `a`, then the object put at `a+H`; the object is unchanged |
| `HashedEeprom.GetWithHash` | Hashing/EEPROM.h:38-49 | the medium is unchanged; the object always gets the S bytes at `a+H`, whatever the verdict; the result is true iff the hash read from `[a, a+H)` equals the hash of the object just read |
| `HashedEeprom.PutWithHashFn` | Hashing/EEPROM.h:55-62 | the same as `PutWithHash`, with the width and value from the function object |
| `HashedEeprom.GetWithHashFn` | Hashing/EEPROM.h:64-75 | the same as `GetWithHash`, with the width and value from the function object |
| `HashedEeprom.WriteRecordLayout` | Hashing/EEPROM.h:34-35 | after a record write, `[a, a+H)` holds the encoded hash and `[a+H, a+H+S)` holds the object; every byte outside `[a, a+H+S)` is as before |
| `HashedEeprom.RecordRoundTrip` | Hashing/EEPROM.h:34-35 | reading back a record just written gives the written object and hash value, if the value fits in `H` bytes |
| `HashedEeprom.RoundTrip` | Hashing/EEPROM.h:29-49 | after `putWithHash<Hash>(a, x)`, `getWithHash<Hash>(a, y)` reads `y == x` and the verdict is true |
| `HashedEeprom.RoundTripFn` | Hashing/EEPROM.h:55-75 | the same round trip for any function object, whose result always fits its `hash_type` |
| `HashedEeprom.DisjointWritePreserves` | Hashing/EEPROM.h:34-35 | a record written to a range disjoint from `[a, a+H+S)` changes neither the hash nor the object read at `a`, so `getWithHash(a, ·)` gives the same result |
| `HashedEeprom.TornRecordDetected` | Hashing/EEPROM.h:35-48 | after `putWithHash`, if exactly one object byte is overwritten with a different value, `getWithHash` returns false, for `KnuthHash` and for every `SummationHash` |
| `HashedEeprom.HashOnlyWriteDetected` | Hashing/EEPROM.h:34-48 | if power is lost between the two puts, the new hash sits over older object bytes; if those differ from the new object in exactly one byte, `getWithHash` returns false |
| `HashedEeprom.FunctionObjectMatchesStatic` | Hashing/EEPROM.h:29-75 | given `KnuthHash{}` or `SummationHash<Summable>{}`, the function-object overloads write the same record and reach the same verdict as the static overloads |
| `HashedEeprom.FunctionObjectWriteMatchesStatic` | Hashing/EEPROM.h:55-62 | `putWithHash(a, x, Hash{})` with the function object of a hash type leaves the medium exactly as `putWithHash<Hash>(a, x)` does |
| `HashedEeprom.FunctionObjectReadMatchesStatic` | Hashing/EEPROM.h:64-75 | `getWithHash(a, y, Hash{})` and `getWithHash<Hash>(a, y)` read the same object bytes and return the same verdict |
| `HashedEeprom.PutThenGet` | Hashing/EEPROM.h:29-49 | a call to `putWithHash` then `getWithHash` at the same address returns true and fills the target with the source's bytes |
| `HashedEeprom.TornWriteScenario` | Hashing/EEPROM.h:29-49 | the record `{10, 20}` written with `KnuthHash` at address 0 reads back verified, with fields `{10, 20}`; once one object byte is changed on the medium, the read returns false |

## Left out

- The Arduino `EEPROMClass` (`#include <EEPROM.h>`) is not part of this model. Its update-only-if-changed writes and write endurance are left out. `Medium.Put` and `Medium.Get` are plain byte copies.
- `reinterpret_cast` and object representation, including padding bytes, are not modelled. An object is its byte sequence of length `sizeof(Type)`.
- Signed `Summable` types and `uint64_t` are left out. For signed types the narrowing in `hash += byte` is implementation-defined before C++20. `Summation.Unsigned` covers the unsigned 8-, 16- and 32-bit accumulators.
- Templates, `decltype` and overload resolution are not modelled. A static hash type is the datatype `HashType`. A function object is `Hasher`: a width in bytes and a function on byte sequences.
- The byte order of the stored hash depends on the platform. The model fixes it to little-endian, as on AVR. No record property depends on the choice.
- The 16-bit signed `int` address, its overflow and the medium's bounds are left out. Addresses are `nat`, and every operation requires `a + H + S` to be at most the medium's size.
- The caller's object is required to be a different array from the medium. In C++ the object lives in RAM, never in the EEPROM.
- Power-loss timing, interrupts and concurrency are left out. Only the memory states they leave behind are modelled: `TornRecordDetected` and `HashOnlyWriteDetected`.
- Whether a record written with one hash function fails verification under another is true only "with high probability". It is not a property of every input, so it is not stated.
- Knuth.Seed: a byte count of 2^32 or more is taken modulo 2^32. In C++, `hash_type hash { sizeof(Type) }` would not compile for such a type, and on AVR `size_t` is 16 bits wide.
