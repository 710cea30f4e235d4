/** The string hash shared by `HashMap` and `ChainHash` (a djb2 variant).
    JavaScript strings are sequences of UTF-16 code units, which is what
    `charCodeAt` reads, so a key is modelled as such a sequence. */
module StringHash {

  const Seed: nat := 5381
  const Multiplier: nat := 33
  const Modulus: nat := 0x1_0000_0000  // 2^32

  type CodeUnit = c: int | 0 <= c < 0x1_0000
  type Key = seq<CodeUnit>

  /** The values of a JavaScript 32-bit signed integer. */
  type Int32 = x: int | -0x8000_0000 <= x < 0x8000_0000

  /** JavaScript's ToInt32: reduce modulo 2^32 into the signed range. */
  function ToInt32(x: int): (r: Int32)
    ensures r % Modulus == x % Modulus
  {
    var m := x % Modulus;
    if m >= 0x8000_0000 then m - Modulus else m
  }

  /** JavaScript's `x >>> 0` on a 32-bit integer: its unsigned reading. */
  function ToUint32(x: Int32): (r: nat)
    ensures r < Modulus && r % Modulus == x % Modulus
    ensures x >= 0 ==> r == x
  {
    x % Modulus
  }

  /** One round of the loop body exactly as JavaScript evaluates it:
      `(hash << 5)` wraps to 32 bits, `+ hash + c` is exact, `hash & hash`
      wraps the sum back to 32 bits. Modulo 2^32 the round is `hash * 33 + c`. */
  function JsRound(hash: Int32, c: CodeUnit): (r: Int32)
    ensures r % Modulus == (hash * Multiplier + c) % Modulus
  {
    var shifted := ToInt32(hash * 32);
    AddCongruent(shifted, hash * 32, hash + c);
    ToInt32(shifted + hash + c)
  }

  /** The unsigned round: `h * 33 + c` modulo 2^32. */
  function Round(h: nat, c: CodeUnit): (r: nat)
    ensures r < Modulus
  {
    (h * Multiplier + c) % Modulus
  }

  /** Folding `Round` over the code units of `s`, starting from `h`. */
  function HashFrom(h: nat, s: Key): nat
    decreases |s|
  {
    if s == [] then h else HashFrom(Round(h, s[0]), s[1..])
  }

  /** The hash of a key: the fold of `Round` from the seed 5381. */
  function Djb2(s: Key): nat
  {
    HashFrom(Seed, s)
  }

  /** Every hash is an unsigned 32-bit value. */
  lemma {:induction false} HashFromBound(h: nat, s: Key)
    requires h < Modulus
    ensures HashFrom(h, s) < Modulus
    decreases |s|
  {
    if s != [] {
      HashFromBound(Round(h, s[0]), s[1..]);
    }
  }

  lemma Djb2Bound(s: Key)
    ensures Djb2(s) < Modulus
  {
    HashFromBound(Seed, s);
  }

  /** Appending one code unit applies one more round, which is what lets the
      left-to-right loop compute the fold. */
  lemma {:induction false} HashFromSnoc(h: nat, s: Key, c: CodeUnit)
    ensures HashFrom(h, s + [c]) == Round(HashFrom(h, s), c)
    decreases |s|
  {
    if s == [] {
      assert [] + [c] == [c];
    } else {
      assert (s + [c])[1..] == s[1..] + [c];
      HashFromSnoc(Round(h, s[0]), s[1..], c);
    }
  }

  /** Adding a multiple of 2^32 does not change the residue. */
  lemma ModShift(x: int, k: int)
    ensures (x + k * 0x1_0000_0000) % 0x1_0000_0000 == x % 0x1_0000_0000
  {
  }

  /** Adding the same amount to two numbers congruent modulo 2^32 keeps
      them congruent. */
  lemma AddCongruent(a: int, b: int, t: int)
    requires a % Modulus == b % Modulus
    ensures (a + t) % Modulus == (b + t) % Modulus
  {
    var k := a / Modulus - b / Modulus;
    assert a == b + k * Modulus;
    ModShift(b + t, k);
  }

  /** The signed JavaScript round agrees with the unsigned round once both are
      read modulo 2^32. */
  lemma JsRoundAgrees(hash: Int32, c: CodeUnit)
    ensures ToUint32(JsRound(hash, c)) == Round(ToUint32(hash), c)
  {
    var x := hash * 32;
    var a := ToInt32(x);
    var k1 := x / 0x1_0000_0000 + (if x % 0x1_0000_0000 >= 0x8000_0000 then 1 else 0);
    assert a == x - k1 * 0x1_0000_0000;
    var u := ToUint32(hash);
    var k2 := hash / 0x1_0000_0000;
    assert u == hash - k2 * 0x1_0000_0000;
    ModShift(hash * 33 + c, -k1);
    ModShift(hash * 33 + c, -33 * k2);
    assert u * 33 + c == hash * 33 + c + (-33 * k2) * 0x1_0000_0000;
  }

  /** `_hashString` as the loop hash.js runs: the accumulator is a JavaScript
      32-bit signed integer and the result its unsigned reading. */
  method HashString(s: Key) returns (h: nat)
    ensures h == Djb2(s)
    ensures h < Modulus
  {
    var hash: Int32 := Seed;
    for i := 0 to |s|
      invariant ToUint32(hash) == HashFrom(Seed, s[..i])
    {
      JsRoundAgrees(hash, s[i]);
      HashFromSnoc(Seed, s[..i], s[i]);
      assert s[..i + 1] == s[..i] + [s[i]];
      hash := JsRound(hash, s[i]);
    }
    assert s[..|s|] == s;
    h := ToUint32(hash);
  }

  /** The index both tables derive from a key: `hash % capacity`. */
  function HomeSlot(key: Key, capacity: nat): (r: nat)
    requires capacity > 0
    ensures r < capacity
  {
    Djb2(key) % capacity
  }
}
