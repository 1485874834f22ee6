/** The `redirect_stderr` context manager (the fallback class defined when
    `contextlib` lacks one): entering it saves the current `sys.stderr` on a
    stack and installs the new target; leaving it pops the stack back into
    `sys.stderr`. The stack makes one manager safe to enter again while it
    is already active. */
module Redirect {
  import opened Text

  /** The process-wide `sys.stderr` slot. */
  class StderrSlot {
    var target: object

    constructor (initial: object)
      ensures target == initial
    {
      target := initial;
    }
  }

  class RedirectStderr {
    const newTarget: object
    /** The targets saved by the entries not yet left, innermost last. */
    var oldTargets: seq<object>

    constructor (newTarget: object)
      ensures this.newTarget == newTarget && oldTargets == []
    {
      this.newTarget := newTarget;
      oldTargets := [];
    }

    /** `__enter__`: push the current target, install the new one, and
        return it. */
    method Enter(sys: StderrSlot) returns (r: object)
      modifies this, sys
      ensures oldTargets == old(oldTargets) + [old(sys.target)]
      ensures sys.target == newTarget && r == newTarget
    {
      oldTargets := oldTargets + [sys.target];
      sys.target := newTarget;
      r := newTarget;
    }

    /** `__exit__`: pop the most recently saved target back into the slot.
        Leaving more often than entering pops an empty list, which raises
        `IndexError`; then `raised` is true and nothing changes. */
    method Exit(sys: StderrSlot) returns (raised: bool)
      modifies this, sys
      ensures raised <==> old(oldTargets) == []
      ensures !raised ==>
        sys.target == Last(old(oldTargets)) && oldTargets == Init(old(oldTargets))
      ensures raised ==> sys.target == old(sys.target) && oldTargets == old(oldTargets)
    {
      if oldTargets == [] {
        raised := true;
      } else {
        raised := false;
        sys.target := oldTargets[|oldTargets| - 1];
        oldTargets := oldTargets[..|oldTargets| - 1];
      }
    }
  }

  /** Entering one manager twice and leaving it twice, whatever entries are
      already open: the inner exit keeps the redirection in place and the
      outer exit restores the stream that was current before, leaving the
      stack as it was, so each exit gets the value its own entry saved. */
  method ReentrantRedirection(cm: RedirectStderr, sys: StderrSlot)
    modifies cm, sys
    ensures sys.target == old(sys.target) && cm.oldTargets == old(cm.oldTargets)
  {
    var original := sys.target;
    var saved := cm.oldTargets;
    var _ := cm.Enter(sys);
    var _ := cm.Enter(sys);
    var raised := cm.Exit(sys);
    assert Init(saved + [original] + [cm.newTarget]) == saved + [original];
    assert !raised && sys.target == cm.newTarget;
    raised := cm.Exit(sys);
    assert Init(saved + [original]) == saved;
    assert !raised && sys.target == original;
  }
}
