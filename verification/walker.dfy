/**
 The stack walk of CaptureCallback: starting at the main thread's r1, follow the
 PowerPC back-chain (word 0 of a frame links to the caller's frame, word 1 holds
 the saved LR) and record each saved LR into successive slots of a key.

 Memory and OSIsAddressValid are abstract: a machine is a total function from
 address to word plus a validity predicate.
 */
module StackWalker {
  import opened Words

  datatype Machine = Machine(word: bv32 -> bv32, isValid: bv32 -> bool)

  /** The outcome of one walk: the sample is discarded, or a key is recorded. */
  datatype WalkResult = InvalidFrame | Stack(key: Key)

  /** The end-of-chain marker besides nullptr. */
  const EndOfStack: bv32 := 0xFFFF_FFFF

  predicate IsEnd(frame: bv32)
  {
    frame == 0 || frame == EndOfStack
  }

  /** stackFrame[0]: the caller's frame. */
  function NextFrame(m: Machine, frame: bv32): bv32
  {
    m.word(frame)
  }

  /** stackFrame[1]: the saved LR, one 32-bit word above the frame address
      (pointer arithmetic wraps at 2^32). */
  function SavedLr(m: Machine, frame: bv32): bv32
  {
    m.word(frame + 4)
  }

  /** f_i of the back-chain: f_0 = frame, f_(i+1) = word[f_i]. */
  function ChainFrame(m: Machine, frame: bv32, i: nat): bv32
    decreases i
  {
    if i == 0 then frame else ChainFrame(m, NextFrame(m, frame), i - 1)
  }

  /** How many frames of the chain come before the first end marker, counting at
      most `bound` of them. */
  function ChainLength(m: Machine, frame: bv32, bound: nat): (n: nat)
    ensures n <= bound
    ensures forall j :: 0 <= j < n ==> !IsEnd(ChainFrame(m, frame, j))
    ensures n < bound ==> IsEnd(ChainFrame(m, frame, n))
    decreases bound
  {
    if bound == 0 || IsEnd(frame) then 0 else 1 + ChainLength(m, NextFrame(m, frame), bound - 1)
  }

  /** The first `n` frames of the chain are all non-terminal and pass the validity oracle. */
  predicate ChainValid(m: Machine, frame: bv32, n: nat)
  {
    forall j :: 0 <= j < n ==> !IsEnd(ChainFrame(m, frame, j)) && m.isValid(ChainFrame(m, frame, j))
  }

  /** The first `n` frames of the chain all pass the validity oracle. */
  predicate AllValid(m: Machine, frame: bv32, n: nat)
  {
    forall j :: 0 <= j < n ==> m.isValid(ChainFrame(m, frame, j))
  }

  lemma ChainValidStep(m: Machine, frame: bv32, n: nat)
    ensures ChainValid(m, frame, n + 1) <==>
            !IsEnd(frame) && m.isValid(frame) && ChainValid(m, NextFrame(m, frame), n)
  {
    var next := NextFrame(m, frame);
    if ChainValid(m, frame, n + 1) {
      assert ChainFrame(m, frame, 0) == frame;
      forall j | 0 <= j < n
        ensures !IsEnd(ChainFrame(m, next, j)) && m.isValid(ChainFrame(m, next, j))
      {
        assert ChainFrame(m, frame, j + 1) == ChainFrame(m, next, j);
      }
    }
    if !IsEnd(frame) && m.isValid(frame) && ChainValid(m, next, n) {
      forall j | 0 <= j < n + 1
        ensures !IsEnd(ChainFrame(m, frame, j)) && m.isValid(ChainFrame(m, frame, j))
      {
        if j > 0 {
          assert ChainFrame(m, frame, j) == ChainFrame(m, next, j - 1);
        }
      }
    }
  }

  lemma AllValidStep(m: Machine, frame: bv32, n: nat)
    ensures AllValid(m, frame, n + 1) <==> m.isValid(frame) && AllValid(m, NextFrame(m, frame), n)
  {
    var next := NextFrame(m, frame);
    if AllValid(m, frame, n + 1) {
      assert ChainFrame(m, frame, 0) == frame;
      forall j | 0 <= j < n
        ensures m.isValid(ChainFrame(m, next, j))
      {
        assert ChainFrame(m, frame, j + 1) == ChainFrame(m, next, j);
      }
    }
    if m.isValid(frame) && AllValid(m, next, n) {
      forall j | 0 <= j < n + 1
        ensures m.isValid(ChainFrame(m, frame, j))
      {
        if j > 0 {
          assert ChainFrame(m, frame, j) == ChainFrame(m, next, j - 1);
        }
      }
    }
  }

  // ---------------------------------------------------------------------------
  // The loop as written: the store precedes the `symbolCount++ >= 32` test.
  // ---------------------------------------------------------------------------

  /** One run of the loop as written: what the callback goes on to do, and the
      indices the store `callStack[symbolCount] = stackFrame[1]` used, in order. */
  datatype Run = Run(result: WalkResult, writes: seq<nat>)

  /** The loop as written, from frame `frame` with `count` slots already stored.
      A store at index `count == Depth` lands past the end of the array, which is
      undefined behaviour; its effect on the memory after the array is not
      modelled, and the slots inside the array are left as they were. */
  function WalkAsWrittenFrom(m: Machine, frame: bv32, count: nat, slots: Key): Run
    requires count <= Depth
    decreases Depth - count
  {
    if IsEnd(frame) then Run(Stack(slots), [])
    else if !m.isValid(frame) then Run(InvalidFrame, [])
    else if count == Depth then Run(Stack(slots), [count])
    else
      var rest := WalkAsWrittenFrom(m, NextFrame(m, frame), count + 1, slots[count := SavedLr(m, frame)]);
      Run(rest.result, [count] + rest.writes)
  }

  function WalkAsWritten(m: Machine, r1: bv32): Run
  {
    WalkAsWrittenFrom(m, r1, 0, Zeros())
  }

  lemma {:induction false} AsWrittenFromIterations(m: Machine, frame: bv32, count: nat, slots: Key)
    requires count <= Depth
    ensures var w := WalkAsWrittenFrom(m, frame, count, slots).writes;
            |w| <= Depth + 1 - count && forall i :: 0 <= i < |w| ==> w[i] == count + i
    decreases Depth - count
  {
    if !IsEnd(frame) && m.isValid(frame) && count < Depth {
      AsWrittenFromIterations(m, NextFrame(m, frame), count + 1, slots[count := SavedLr(m, frame)]);
    }
  }

  /** The loop runs at most Depth + 1 = 33 times, even on a cyclic chain, and its
      i-th iteration stores into index i. */
  lemma AsWrittenIterations(m: Machine, r1: bv32)
    ensures var w := WalkAsWritten(m, r1).writes;
            |w| <= Depth + 1 && forall i :: 0 <= i < |w| ==> w[i] == i
  {
    AsWrittenFromIterations(m, r1, 0, Zeros());
  }

  lemma {:induction false} AsWrittenFromOverrun(m: Machine, frame: bv32, count: nat, slots: Key)
    requires count <= Depth
    ensures Depth in WalkAsWrittenFrom(m, frame, count, slots).writes <==> ChainValid(m, frame, Depth + 1 - count)
    decreases Depth - count
  {
    var run := WalkAsWrittenFrom(m, frame, count, slots);
    if IsEnd(frame) || !m.isValid(frame) {
      assert ChainFrame(m, frame, 0) == frame;
      assert run.writes == [];
    } else if count == Depth {
      assert run.writes == [Depth];
      forall j | 0 <= j < 1
        ensures !IsEnd(ChainFrame(m, frame, j)) && m.isValid(ChainFrame(m, frame, j))
      {
        assert j == 0;
      }
    } else {
      var next := NextFrame(m, frame);
      var slots' := slots[count := SavedLr(m, frame)];
      var rest := WalkAsWrittenFrom(m, next, count + 1, slots');
      AsWrittenFromOverrun(m, next, count + 1, slots');
      assert run.writes == [count] + rest.writes;
      assert Depth in run.writes <==> Depth in rest.writes;
      ChainValidStep(m, frame, Depth - count);
    }
  }

  /** The store lands outside the 32-slot array exactly when the first 33 frames
      of the chain are all non-terminal and valid. */
  lemma OverrunIffDeepChain(m: Machine, r1: bv32)
    ensures Depth in WalkAsWritten(m, r1).writes <==> ChainValid(m, r1, Depth + 1)
  {
    AsWrittenFromOverrun(m, r1, 0, Zeros());
  }

  lemma {:induction false} SelfLinkedChain(m: Machine, frame: bv32, i: nat)
    requires NextFrame(m, frame) == frame
    ensures ChainFrame(m, frame, i) == frame
    decreases i
  {
    if i > 0 {
      SelfLinkedChain(m, frame, i - 1);
    }
  }

  /** A concrete input for the off-by-one: a valid frame whose back-chain link
      points to itself makes the loop store into callStack[32]. */
  lemma SelfLinkedFrameOverruns()
    ensures Depth in WalkAsWritten(Machine(_ => 0x1000, _ => true), 0x1000).writes
  {
    var m := Machine(_ => 0x1000, _ => true);
    forall j | 0 <= j <= Depth
      ensures ChainFrame(m, 0x1000, j) == 0x1000
    {
      SelfLinkedChain(m, 0x1000, j);
    }
    OverrunIffDeepChain(m, 0x1000);
  }

  // ---------------------------------------------------------------------------
  // The corrected loop: the bound is checked before the store, so every index
  // stored is below Depth. The validity test keeps its place in front.
  // ---------------------------------------------------------------------------

  function WalkFrom(m: Machine, frame: bv32, count: nat, slots: Key): WalkResult
    requires count <= Depth
    decreases Depth - count
  {
    if IsEnd(frame) then Stack(slots)
    else if !m.isValid(frame) then InvalidFrame
    else if count == Depth then Stack(slots)
    else WalkFrom(m, NextFrame(m, frame), count + 1, slots[count := SavedLr(m, frame)])
  }

  /** The stack walk from r1 into a zero-initialised key. */
  function Walk(m: Machine, r1: bv32): WalkResult
  {
    WalkFrom(m, r1, 0, Zeros())
  }

  /** Apart from the stray store, the loop as written ends in the same outcome as
      the corrected one. */
  lemma {:induction false} AsWrittenFromAgrees(m: Machine, frame: bv32, count: nat, slots: Key)
    requires count <= Depth
    ensures WalkAsWrittenFrom(m, frame, count, slots).result == WalkFrom(m, frame, count, slots)
    decreases Depth - count
  {
    if !IsEnd(frame) && m.isValid(frame) && count < Depth {
      AsWrittenFromAgrees(m, NextFrame(m, frame), count + 1, slots[count := SavedLr(m, frame)]);
    }
  }

  lemma AsWrittenAgrees(m: Machine, r1: bv32)
    ensures WalkAsWritten(m, r1).result == Walk(m, r1)
  {
    AsWrittenFromAgrees(m, r1, 0, Zeros());
  }

  lemma {:induction false} WalkFromFollowsChain(m: Machine, frame: bv32, count: nat, slots: Key)
    requires count <= Depth
    ensures var n := ChainLength(m, frame, Depth + 1 - count);
            var r := WalkFrom(m, frame, count, slots);
            && (r.InvalidFrame? <==> !AllValid(m, frame, n))
            && (r.Stack? ==> forall i :: 0 <= i < Depth ==>
                  r.key[i] == (if i < count then slots[i]
                               else if i - count < n then SavedLr(m, ChainFrame(m, frame, i - count))
                               else slots[i]))
    decreases Depth - count
  {
    var n := ChainLength(m, frame, Depth + 1 - count);
    var r := WalkFrom(m, frame, count, slots);
    if IsEnd(frame) {
      assert n == 0;
    } else if !m.isValid(frame) {
      assert n >= 1;
      AllValidStep(m, frame, n - 1);
    } else if count == Depth {
      assert n == 1;
      AllValidStep(m, frame, 0);
    } else {
      var next := NextFrame(m, frame);
      var slots' := slots[count := SavedLr(m, frame)];
      WalkFromFollowsChain(m, next, count + 1, slots');
      var n' := ChainLength(m, next, Depth + 1 - (count + 1));
      assert n == 1 + n';
      assert r == WalkFrom(m, next, count + 1, slots');
      AllValidStep(m, frame, n');
      if r.Stack? {
        forall i | 0 <= i < Depth
          ensures r.key[i] == (if i < count then slots[i]
                               else if i - count < n then SavedLr(m, ChainFrame(m, frame, i - count))
                               else slots[i])
        {
          if i == count {
            assert ChainFrame(m, frame, 0) == frame;
          } else if i > count && i - count < n {
            assert ChainFrame(m, frame, i - count) == ChainFrame(m, next, i - count - 1);
          }
        }
      }
    }
  }

  /** The walk follows the back-chain f_0 = r1, f_(i+1) = word[f_i]: it discards
      the sample exactly when some frame it reaches fails the validity oracle;
      otherwise slot i holds the saved LR of f_i for every frame walked (deepest
      frame first) and every later slot stays zero. Frames are counted up to
      Depth + 1, because the frame after the 32nd is still validated. */
  lemma WalkFollowsChain(m: Machine, r1: bv32)
    ensures var n := ChainLength(m, r1, Depth + 1);
            var r := Walk(m, r1);
            && (r.InvalidFrame? <==> !AllValid(m, r1, n))
            && (r.Stack? ==> forall i :: 0 <= i < Depth ==>
                  r.key[i] == (if i < n then SavedLr(m, ChainFrame(m, r1, i)) else 0))
  {
    WalkFromFollowsChain(m, r1, 0, Zeros());
  }

  /** Zero-padding: when no saved LR along the walked chain is zero, the key has no
      holes and its non-zero prefix is exactly the frames walked. */
  lemma WalkIsZeroPadded(m: Machine, r1: bv32)
    requires forall j :: 0 <= j < ChainLength(m, r1, Depth + 1) ==> SavedLr(m, ChainFrame(m, r1, j)) != 0
    ensures Walk(m, r1).Stack? ==> NoHoles(Walk(m, r1).key)
    ensures Walk(m, r1).Stack? ==>
              FirstZero(Walk(m, r1).key) == if ChainLength(m, r1, Depth + 1) < Depth
                                            then ChainLength(m, r1, Depth + 1) else Depth
  {
    WalkFollowsChain(m, r1);
    var n := ChainLength(m, r1, Depth + 1);
    var r := Walk(m, r1);
    if r.Stack? {
      var k := r.key;
      forall i | 0 <= i < Depth
        ensures k[i] == 0 <==> i >= n
      {
        if i < n {
          assert k[i] == SavedLr(m, ChainFrame(m, r1, i));
        }
      }
      if n < Depth {
        assert k[n] == 0;
      }
    }
  }

  /** CaptureCallback's loop in imperative form, bound test before the store. */
  method CaptureStack(m: Machine, r1: bv32) returns (r: WalkResult)
    ensures r == Walk(m, r1)
  {
    var frame := r1;
    var callStack := Zeros();
    var symbolCount := 0;
    while !IsEnd(frame)
      invariant symbolCount <= Depth
      invariant WalkFrom(m, frame, symbolCount, callStack) == Walk(m, r1)
      decreases Depth - symbolCount
    {
      if !m.isValid(frame) {
        return InvalidFrame;
      }
      if symbolCount == Depth {
        break;
      }
      callStack := callStack[symbolCount := SavedLr(m, frame)];
      symbolCount := symbolCount + 1;
      frame := NextFrame(m, frame);
    }
    return Stack(callStack);
  }
}
