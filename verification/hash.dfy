/**
 StackTraceCaptureHash: the order-sensitive hash of a stack-trace key. It folds
 the slots front to back (deepest frame first) and stops at the first zero slot.
 size_t is 32 bits wide on the target, so every step wraps at 2^32.
 */
module StackHash {
  import opened Words

  /** std::hash<uint32_t> in libstdc++ is the identity on the value. */
  function StdHash(num: bv32): bv32
  {
    num
  }

  /** One combine step: h ^= H(num) + 0x9e3779b9 + (h << 6) + (h >> 2). */
  function Mix(h: bv32, num: bv32): bv32
  {
    h ^ (StdHash(num) + 0x9e3779b9 + (h << 6) + (h >> 2))
  }

  /** The range-for over the array, continuing from accumulator `h`, with its
      `break` at the first zero slot. */
  function HashFrom(h: bv32, s: seq<bv32>): bv32
    decreases |s|
  {
    if |s| == 0 || s[0] == 0 then h else HashFrom(Mix(h, s[0]), s[1..])
  }

  /** StackTraceCaptureHash::operator(). */
  function Hash(k: Key): bv32
  {
    HashFrom(0, k)
  }

  /** Reference definition: combine every element of `s`, last element mixed in
      last, with no early exit. */
  function Fold(s: seq<bv32>): bv32
    decreases |s|
  {
    if |s| == 0 then 0 else Mix(Fold(s[..|s| - 1]), s[|s| - 1])
  }

  lemma {:induction false} HashFromIsFold(p: seq<bv32>, s: seq<bv32>)
    ensures HashFrom(Fold(p), s) == Fold(p + Prefix(s))
    decreases |s|
  {
    if |s| == 0 || s[0] == 0 {
      assert Prefix(s) == [];
      assert p + Prefix(s) == p;
    } else {
      assert Prefix(s) == [s[0]] + Prefix(s[1..]);
      var p' := p + [s[0]];
      assert p'[..|p'| - 1] == p;
      assert Fold(p') == Mix(Fold(p), s[0]);
      HashFromIsFold(p', s[1..]);
      assert p' + Prefix(s[1..]) == p + Prefix(s);
    }
  }

  /** The hash of a key is the full fold of its non-zero prefix. */
  lemma HashIsFoldOfPrefix(k: Key)
    ensures Hash(k) == Fold(Prefix(k))
  {
    HashFromIsFold([], k);
    assert [] + Prefix(k) == Prefix(k);
  }

  /** The hash depends only on the slots before the first zero: two keys that
      agree up to and including their first zero hash equally. */
  lemma HashDependsOnlyOnPrefix(a: Key, b: Key)
    requires Prefix(a) == Prefix(b)
    ensures Hash(a) == Hash(b)
  {
    HashIsFoldOfPrefix(a);
    HashIsFoldOfPrefix(b);
  }

  /** The all-zero key hashes to 0, and so does every key whose first slot is zero. */
  lemma HashOfEmptyStack(k: Key)
    requires k[0] == 0
    ensures Hash(k) == 0
    ensures Hash(Zeros()) == 0
  {
  }

  /** Keys are compared on all 32 slots, the hash only on the prefix: two different
      keys with a zero slot in the middle land in the same bucket yet stay apart. */
  lemma HoleKeysCollide()
    ensures var a := Zeros()[0 := 7][2 := 8];
            var b := Zeros()[0 := 7][2 := 9];
            a != b && Hash(a) == Hash(b)
  {
    var a := Zeros()[0 := 7][2 := 8];
    var b := Zeros()[0 := 7][2 := 9];
    assert a[2] != b[2];
    assert a[1..][0] == 0 && b[1..][0] == 0;
    assert Hash(a) == HashFrom(Mix(0, 7), a[1..]) == Mix(0, 7);
    assert Hash(b) == HashFrom(Mix(0, 7), b[1..]) == Mix(0, 7);
  }

  /** The loop of operator() as written: a range-for with an early break. */
  method ComputeHash(arr: Key) returns (hash: bv32)
    ensures hash == Fold(Prefix(arr))
  {
    hash := 0;
    var i := 0;
    while i < |arr|
      invariant i <= FirstZero(arr)
      invariant hash == Fold(arr[..i])
    {
      var num := arr[i];
      if num == 0 {
        break;
      }
      assert arr[..i + 1][..i] == arr[..i];
      hash := Mix(hash, num);
      i := i + 1;
    }
    assert arr[..i] == Prefix(arr);
  }
}
