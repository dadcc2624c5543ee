/**
 The fixed-capacity stack-trace key shared by the whole profiler: an array of
 MAX_STACK_TRACE_DEPTH (32) unsigned 32-bit return addresses, zero-padded after
 the last recorded frame.
 */
module Words {

  datatype Option<+T> = None | Some(value: T)

  /** MAX_STACK_TRACE_DEPTH */
  const Depth: nat := 32

  /** One std::array<uint32_t, 32>; equality is element-wise over all 32 slots. */
  type Key = k: seq<bv32> | |k| == Depth witness seq(32, _ => 0 as bv32)

  /** The value-initialised array `{}`. */
  function Zeros(): Key
  {
    seq(Depth, _ => 0 as bv32)
  }

  /** Index of the first zero slot of `s`, or |s| when there is none. */
  function FirstZero(s: seq<bv32>): (n: nat)
    ensures n <= |s|
    ensures forall i :: 0 <= i < n ==> s[i] != 0
    ensures n < |s| ==> s[n] == 0
  {
    if |s| == 0 || s[0] == 0 then 0 else 1 + FirstZero(s[1..])
  }

  /** The slots before the first zero: the part of a key the hash looks at. */
  function Prefix(s: seq<bv32>): seq<bv32>
  {
    s[..FirstZero(s)]
  }

  /** The zero-padding convention: once a slot is zero, every later slot is zero. */
  predicate NoHoles(s: seq<bv32>)
  {
    forall i, j :: 0 <= i < j < |s| && s[i] == 0 ==> s[j] == 0
  }

  /** Under the zero-padding convention two keys are equal exactly when their
      non-zero prefixes are equal. */
  lemma KeyEqualIffPrefixEqual(a: Key, b: Key)
    requires NoHoles(a) && NoHoles(b)
    ensures a == b <==> Prefix(a) == Prefix(b)
  {
    if Prefix(a) == Prefix(b) {
      var n := FirstZero(a);
      assert |Prefix(a)| == n == FirstZero(b);
      forall i | 0 <= i < Depth
        ensures a[i] == b[i]
      {
        if i < n {
          assert a[i] == Prefix(a)[i] == Prefix(b)[i] == b[i];
        } else {
          assert a[n] == 0 && b[n] == 0;
          assert a[i] == 0 && b[i] == 0;
        }
      }
    }
  }
}
