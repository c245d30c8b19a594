/**
  The frame-chain walk of `ThreadTracker.build_stack_frames`, over chains that may be cyclic.
 */
module ThreadTracker {
  import opened Wrappers

  /** A frame object; `code` is None where reading its code raises. */
  class Frame {
    var code: Option<string>
    var line: int
    var back: Frame?

    constructor (code: Option<string>, line: int, back: Frame?)
      ensures this.code == code && this.line == line && this.back == back
    {
      this.code, this.line, this.back := code, line, back;
    }
  }

  datatype StackFrame = StackFrame(id: nat, name: string, line: int)

  /** `walk` follows the back links from `start` through distinct, readable frames. */
  ghost predicate IsWalk(start: Frame?, walk: seq<Frame>)
    reads walk
  {
    && (walk != [] ==> walk[0] == start)
    && (forall i :: 0 <= i < |walk| - 1 ==> walk[i].back == walk[i + 1])
    && (forall i, j :: 0 <= i < j < |walk| ==> walk[i] != walk[j])
    && (forall i :: 0 <= i < |walk| ==> walk[i].code.Some?)
  }

  /** The frame after a walk. */
  function Next(start: Frame?, walk: seq<Frame>): Frame?
    reads walk
  {
    if walk == [] then start else walk[|walk| - 1].back
  }

  /** Why a walk can go no further: the chain ends, closes, or cannot be read. */
  ghost predicate Complete(start: Frame?, walk: seq<Frame>)
    reads walk, if Next(start, walk) == null then {} else {Next(start, walk)}
  {
    var next := Next(start, walk);
    next == null || next in walk || next.code.None?
  }

  lemma WalkOn(start: Frame?, walk: seq<Frame>, f: Frame)
    requires IsWalk(start, walk) && Next(start, walk) == f && f !in walk && f.code.Some?
    ensures IsWalk(start, walk + [f]) && Next(start, walk + [f]) == f.back
  {
  }

  ghost predicate HasId(ids: map<nat, Frame>, id: nat, f: Frame) {
    id in ids && ids[id] == f
  }

  /** The frames of `walk` have the ids from `first` on, and smaller ids mean what they meant. */
  ghost predicate Registers(before: map<nat, Frame>, after: map<nat, Frame>, walk: seq<Frame>, first: nat) {
    && (forall i :: 0 <= i < |walk| ==> HasId(after, first + i, walk[i]))
    && (forall id :: id < first ==> (id in after <==> id in before) && (id in after ==> after[id] == before[id]))
    && (forall id :: id in after ==> id < first + |walk|)
  }

  lemma RegisterNext(before: map<nat, Frame>, after: map<nat, Frame>, walk: seq<Frame>, first: nat, f: Frame)
    requires Registers(before, after, walk, first)
    ensures Registers(before, after[first + |walk| := f], walk + [f], first)
  {
    var m, w := after[first + |walk| := f], walk + [f];
    forall i | 0 <= i < |w| ensures HasId(m, first + i, w[i]) {
      if i < |walk| {
        assert HasId(after, first + i, walk[i]);
      }
    }
  }

  class ThreadTracker {
    var nextFrameId: nat
    var frameIdToFrame: map<nat, Frame>
    var framesByThread: map<int, seq<StackFrame>>

    ghost predicate Valid()
      reads this
    {
      forall id :: id in frameIdToFrame ==> id < nextFrameId
    }

    constructor ()
      ensures Valid() && nextFrameId == 1 && frameIdToFrame == map[] && framesByThread == map[]
    {
      nextFrameId, frameIdToFrame, framesByThread := 1, map[], map[];
    }

    /** The walk terminates on every chain, cyclic or not.  It reports the longest walk of at
        most `maxDepth` frames, gives it fresh consecutive ids, and registers each frame under
        its own id without touching earlier registrations. */
    method BuildStackFrames(start: Frame?, maxDepth: int) returns (stack: seq<StackFrame>, ghost walk: seq<Frame>)
      requires Valid()
      modifies this`nextFrameId, this`frameIdToFrame
      ensures Valid() && IsWalk(start, walk) && |stack| == |walk|
      ensures |walk| <= if maxDepth < 0 then 0 else maxDepth
      ensures |walk| < maxDepth ==> Complete(start, walk)
      ensures nextFrameId == old(nextFrameId) + |stack|
      ensures forall i :: 0 <= i < |stack| ==>
        stack[i] == StackFrame(old(nextFrameId) + i, walk[i].code.value, walk[i].line)
      ensures Registers(old(frameIdToFrame), frameIdToFrame, walk, old(nextFrameId))
    {
      stack, walk := [], [];
      var current := start;
      var visited: set<Frame> := {};
      var depth := 0;
      ghost var first, before := nextFrameId, frameIdToFrame;
      while current != null && depth < maxDepth
        invariant IsWalk(start, walk) && current == Next(start, walk)
        invariant |stack| == |walk| == depth && nextFrameId == first + depth
        invariant depth <= (if maxDepth < 0 then 0 else maxDepth)
        invariant forall f :: f in visited <==> f in walk
        invariant forall i :: 0 <= i < depth ==> stack[i] == StackFrame(first + i, walk[i].code.value, walk[i].line)
        invariant Registers(before, frameIdToFrame, walk, first)
        decreases maxDepth - depth
      {
        hide Registers, IsWalk;
        if current in visited {
          break;
        }
        visited := visited + {current};
        depth := depth + 1;
        if current.code.None? {
          break;
        }
        var id := nextFrameId;
        nextFrameId := nextFrameId + 1;
        RegisterNext(before, frameIdToFrame, walk, first, current);
        WalkOn(start, walk, current);
        frameIdToFrame := frameIdToFrame[id := current];
        stack := stack + [StackFrame(id, current.code.value, current.line)];
        walk := walk + [current];
        current := current.back;
      }
    }

    method StoreStackFrames(thread: int, frames: seq<StackFrame>)
      modifies this`framesByThread
      ensures framesByThread == old(framesByThread)[thread := frames]
    {
      framesByThread := framesByThread[thread := frames];
    }

    /** Clearing forgets every frame and stack and reuses no id. */
    method ClearFrames()
      requires Valid()
      modifies this
      ensures Valid() && frameIdToFrame == map[] && framesByThread == map[] && nextFrameId == old(nextFrameId)
    {
      frameIdToFrame, framesByThread := map[], map[];
    }
  }

  /** Two complete walks from the same frame are the same, so the stack reported for a chain
      within the depth limit does not depend on anything else. */
  lemma CompleteWalkIsUnique(start: Frame?, a: seq<Frame>, b: seq<Frame>)
    requires IsWalk(start, a) && Complete(start, a) && IsWalk(start, b) && Complete(start, b)
    ensures a == b
  {
    if |a| <= |b| {
      WalksAgree(start, a, b);
    } else {
      WalksAgree(start, b, a);
    }
  }

  lemma WalksAgree(start: Frame?, a: seq<Frame>, b: seq<Frame>)
    requires IsWalk(start, a) && Complete(start, a) && IsWalk(start, b) && |a| <= |b|
    ensures a == b
  {
    CommonPrefix(start, a, b, |a|);
    assert a[..|a|] == a;
    if |a| < |b| {
      LongerWalkGoesOn(start, a, b);
    }
  }

  lemma LongerWalkGoesOn(start: Frame?, a: seq<Frame>, b: seq<Frame>)
    requires IsWalk(start, b) && |a| < |b| && a == b[..|a|]
    ensures !Complete(start, a)
  {
    var n := |a|;
    assert forall i :: 0 <= i < n ==> a[i] == b[i];
    assert n > 0 ==> b[n - 1].back == b[n];
    assert Next(start, a) == b[n];
  }

  lemma {:induction false} CommonPrefix(start: Frame?, a: seq<Frame>, b: seq<Frame>, n: nat)
    requires IsWalk(start, a) && IsWalk(start, b) && n <= |a| && n <= |b|
    ensures a[..n] == b[..n]
  {
    if n > 0 {
      CommonPrefix(start, a, b, n - 1);
      if n > 1 {
        assert a[n - 2] == a[..n - 1][n - 2] == b[..n - 1][n - 2] == b[n - 2];
        assert a[n - 2].back == a[n - 1] && b[n - 2].back == b[n - 1];
      }
      assert a[..n] == a[..n - 1] + [a[n - 1]] && b[..n] == b[..n - 1] + [b[n - 1]];
    }
  }
}
