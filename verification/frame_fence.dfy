/**
 * The frame-fence bookkeeping of the Direct3D 12 sample in
 * win32_application.cpp: a fence value per back buffer, the index of the
 * back buffer being rendered, and the GPU fence the CPU signals and waits on.
 *
 * The GPU is not modelled as a concurrent agent. Its fence is a ghost
 * counter `completed` that only grows and never passes the newest value
 * signalled; the values signalled so far are the ghost history `signals`.
 * A blocking wait (`SetEventOnCompletion` followed by
 * `WaitForSingleObjectEx(INFINITE)`) returns with `completed` at least its
 * target. What the swap chain and the fence report
 * (`GetCurrentBackBufferIndex`, `GetCompletedValue`) are parameters.
 */
module FrameFence {
  /** `frame_count`: the number of back buffers in the swap chain. */
  const FrameCount: nat := 2

  class FenceTracker {
    /** `m_fence_values`: per back buffer, the fence value that marks its
        last frame as done. */
    var fenceValues: array<nat>
    /** `m_frame_index`: the back buffer being rendered. */
    var frameIndex: nat
    /** Whether `m_fence_event` is an open event handle. */
    var eventOpen: bool
    /** The fence's completed value. */
    ghost var completed: nat
    /** Every value signalled on the command queue, in order. */
    ghost var signals: seq<nat>

    /** The fence is in use: the values signalled so far are 1, 2, 3, ... with
        no gap or repeat; the GPU has completed at most the newest of them;
        the current slot holds the next value to signal; the other slot holds
        at most the newest value signalled (0 before that slot's first frame). */
    ghost predicate Valid()
      reads this, fenceValues
    {
      && fenceValues.Length == FrameCount
      && frameIndex < FrameCount
      && (forall k :: 0 <= k < |signals| ==> signals[k] == k + 1)
      && completed <= |signals|
      && fenceValues[frameIndex] == |signals| + 1
      && (forall s :: 0 <= s < FrameCount && s != frameIndex ==> fenceValues[s] <= |signals|)
    }

    /** The state after `init_hello_triangle` and `dx_load_pipeline`: the
        fence values zeroed, the frame index taken from the swap chain, no
        fence and no event yet. */
    constructor (backBufferIndex: nat)
      requires backBufferIndex < FrameCount
      ensures fresh(fenceValues) && fenceValues.Length == FrameCount
      ensures forall s :: 0 <= s < FrameCount ==> fenceValues[s] == 0
      ensures frameIndex == backBufferIndex && !eventOpen
      ensures signals == [] && completed == 0
    {
      fenceValues := new nat[FrameCount](_ => 0);
      frameIndex := backBufferIndex;
      eventOpen := false;
      signals := [];
      completed := 0;
    }

    /** The synchronisation block of `dx_load_assets`: create the fence with
        the current slot's value, bump that value, open the event, and wait
        for the GPU to finish the setup work. */
    method LoadAssets()
      requires fenceValues.Length == FrameCount && frameIndex < FrameCount
      requires forall s :: 0 <= s < FrameCount ==> fenceValues[s] == 0
      requires signals == [] && !eventOpen
      modifies this`completed, this`signals, this`eventOpen, fenceValues
      ensures Valid() && eventOpen && frameIndex == old(frameIndex)
      ensures signals == [1] && completed == 1
      ensures fenceValues[frameIndex] == 2
      ensures forall s :: 0 <= s < FrameCount && s != frameIndex ==> fenceValues[s] == 0
    {
      // CreateFence: the fence starts out completed up to the value it is created with.
      completed := fenceValues[frameIndex];
      fenceValues[frameIndex] := fenceValues[frameIndex] + 1;
      eventOpen := true;
      WaitForGpu();
    }

    /** `dx12_wait_for_gpu`: signal the current slot's value, wait until the
        fence reaches it, then bump that slot's value by one. Afterwards the
        GPU has finished everything signalled. */
    method WaitForGpu()
      requires Valid() && eventOpen
      modifies this`completed, this`signals, fenceValues
      ensures Valid()
      ensures signals == old(signals) + [old(fenceValues[frameIndex])]
      ensures completed == |signals| && completed >= old(completed)
      ensures forall s :: 0 <= s < FrameCount ==> completed >= old(fenceValues[s])
      ensures fenceValues[frameIndex] == old(fenceValues[frameIndex]) + 1
      ensures forall s :: 0 <= s < FrameCount && s != frameIndex ==> fenceValues[s] == old(fenceValues[s])
    {
      var value := fenceValues[frameIndex];
      signals := signals + [value];
      BlockUntil(value);
      fenceValues[frameIndex] := fenceValues[frameIndex] + 1;
    }

    /** `dx12_move_to_next_frame`: signal the current slot's value, switch to
        the back buffer the swap chain reports, block only if that buffer's
        last frame is not done yet (`observed` is what `GetCompletedValue`
        returns), and give the new slot the value after the one signalled.
        `blocked` tells whether the CPU waited. */
    method MoveToNextFrame(backBufferIndex: nat, observed: nat) returns (blocked: bool)
      requires Valid() && eventOpen && backBufferIndex < FrameCount
      requires completed <= observed <= |signals| + 1
      modifies this`frameIndex, this`completed, this`signals, fenceValues
      ensures Valid()
      ensures signals == old(signals) + [old(fenceValues[frameIndex])]
      ensures frameIndex == backBufferIndex
      ensures blocked <==> observed < old(fenceValues[backBufferIndex])
      ensures old(fenceValues[backBufferIndex]) <= |signals|
      ensures completed >= old(fenceValues[backBufferIndex]) && completed >= old(completed)
      ensures fenceValues[frameIndex] == signals[|signals| - 1] + 1
      ensures forall s :: 0 <= s < FrameCount && s != frameIndex ==> fenceValues[s] == old(fenceValues[s])
    {
      var current := fenceValues[frameIndex];
      signals := signals + [current];
      frameIndex := backBufferIndex;
      completed := observed;
      blocked := observed < fenceValues[frameIndex];
      if blocked {
        BlockUntil(fenceValues[frameIndex]);
      }
      fenceValues[frameIndex] := current + 1;
    }

    /** `dx_on_destroy`: wait for the GPU, then close the event handle. */
    method OnDestroy()
      requires Valid() && eventOpen
      modifies this`completed, this`signals, this`eventOpen, fenceValues
      ensures Valid() && !eventOpen
      ensures signals == old(signals) + [old(fenceValues[frameIndex])]
      ensures completed == |signals|
      ensures forall s :: 0 <= s < FrameCount ==> completed >= old(fenceValues[s])
      ensures frameIndex == old(frameIndex)
      ensures fenceValues[frameIndex] == old(fenceValues[frameIndex]) + 1
      ensures forall s :: 0 <= s < FrameCount && s != frameIndex ==> fenceValues[s] == old(fenceValues[s])
    {
      WaitForGpu();
      eventOpen := false;
    }

    /** The CPU blocks until the GPU has completed `target`, which must already
        be signalled for the wait to end. The GPU may by then have gone further,
        up to the newest value signalled. */
    ghost method BlockUntil(target: nat)
      requires completed <= |signals| && target <= |signals|
      modifies this`completed
      ensures old(completed) <= completed <= |signals| && target <= completed
    {
      var reached :| completed <= reached <= |signals| && target <= reached;
      completed := reached;
    }
  }
}
