/**
 The system-call tracer's breakpoint protocol (src/syscall-trace.c) on one vCPU: an INT3 at the
 system-call entry, taken out for one single step each time it is hit, and put back.
 */
module Tracer {
  import opened Common

  const INT3: Byte := 0xCC

  /** The event the paused vCPU is waiting to have handled. */
  datatype Pending = Nothing | Breakpoint | ForeignBreakpoint | SingleStep

  /** What the guest does next at the traced address or elsewhere. */
  datatype GuestStep = RunEntry | RunForeignInt3 | FinishStep

  class Tracer {
    var guestByte: Byte       // the byte at LSTAR
    var savedOpcode: Byte
    var hitCount: nat
    var stepping: bool        // single-stepping is toggled on
    var interrupted: bool
    var pending: Pending
    ghost var original: Byte  // the byte before the tracer touched it
    ghost var entered: nat    // times the guest began to execute the entry
    ghost var unseen: nat     // times it did so without trapping, outside a single step

    /** Armed exactly when not stepping; every entry has trapped, and all but the one being
        handled have been counted. */
    ghost predicate Armed()
      reads this
    {
      && savedOpcode == original != INT3 && unseen == 0
      && guestByte == (if stepping then savedOpcode else INT3)
      && hitCount + (if pending == Breakpoint then 1 else 0) == entered
      && (pending == Breakpoint ==> !stepping) && (pending == SingleStep ==> stepping)
    }

    /** set_lstar_breakpoint, on an entry that is not itself an INT3. */
    constructor (code: Byte)
      requires code != INT3
      ensures Armed() && original == code && hitCount == 0 && entered == 0 && pending == Nothing && !interrupted
    {
      original, savedOpcode, guestByte := code, code, INT3;
      hitCount, entered, unseen, stepping, interrupted, pending := 0, 0, 0, false, false, Nothing;
    }

    /** The guest runs until its next event. Outside a single step it cannot get past the entry
        without trapping. */
    method Guest(step: GuestStep)
      requires Armed() && pending == Nothing
      modifies this`pending, this`entered, this`unseen
      ensures Armed() && entered == old(entered) + (if step == RunEntry && !stepping then 1 else 0)
      ensures pending == match step
                         case RunEntry => if stepping then Nothing else Breakpoint
                         case RunForeignInt3 => ForeignBreakpoint
                         case FinishStep => if stepping then SingleStep else Nothing
    {
      match step
      case RunEntry =>
        if !stepping {
          entered := entered + 1;
          pending := if guestByte == INT3 then Breakpoint else Nothing;
          unseen := unseen + (if guestByte == INT3 then 0 else 1);
        }
      case RunForeignInt3 => pending := ForeignBreakpoint;
      case FinishStep =>
        if stepping {
          pending := SingleStep;
        }
    }

    /** breakpoint_cb: a hit elsewhere is reinjected; a hit at the entry is counted, the saved
        byte is written back and single-stepping is toggled on. */
    method BreakpointCb(writeOk: bool) returns (reinject: bool)
      requires Armed() && (pending == Breakpoint || pending == ForeignBreakpoint)
      modifies this
      ensures Armed() && pending == Nothing && original == old(original) && savedOpcode == old(savedOpcode)
      ensures entered == old(entered)
      ensures reinject <==> old(pending) == ForeignBreakpoint
      ensures reinject ==> stepping == old(stepping) && interrupted == old(interrupted) && hitCount == old(hitCount)
      ensures !reinject ==> hitCount == old(hitCount) + 1 && stepping == writeOk
      ensures !reinject && writeOk ==> interrupted == old(interrupted) && guestByte == original
      ensures !reinject && !writeOk ==> interrupted && guestByte == INT3
    {
      reinject := pending == ForeignBreakpoint;
      pending := Nothing;
      if reinject {
        return;
      }
      hitCount := hitCount + 1;
      if !writeOk {
        interrupted := true;
        return;
      }
      guestByte := savedOpcode;
      stepping := true;
    }

    /** single_step_cb: the breakpoint is written again and single-stepping toggled off. */
    method SingleStepCb(writeOk: bool)
      requires Armed() && pending == SingleStep
      modifies this
      ensures Armed() && pending == Nothing && original == old(original) && savedOpcode == old(savedOpcode)
      ensures hitCount == old(hitCount) && entered == old(entered)
      ensures stepping == !writeOk && (writeOk ==> interrupted == old(interrupted) && guestByte == INT3)
      ensures !writeOk ==> interrupted && guestByte == savedOpcode
    {
      pending := Nothing;
      if !writeOk {
        interrupted := true;
        return;
      }
      guestByte := INT3;
      stepping := false;
    }

    /** The exit sequence: the saved byte is written unless it is zero, then a pending event is
        still handled; `restoreOk` and `callbackOk` are the outcomes of the two writes. The guest
        gets its byte back exactly when the last of these to touch it left the saved byte. */
    method Exit(restoreOk: bool, callbackOk: bool)
      requires Armed()
      modifies this
      ensures original == old(original) && entered == old(entered) && unseen == old(unseen)
      ensures hitCount == entered && pending == Nothing
      ensures guestByte == original <==>
              match old(pending)
              case SingleStep => !callbackOk
              case Breakpoint => (original != 0 && restoreOk) || callbackOk
              case _ => (original != 0 && restoreOk) || old(stepping)
    {
      if savedOpcode != 0 && restoreOk {
        guestByte := savedOpcode;
      }
      if pending == Breakpoint {
        hitCount := hitCount + 1;
        if callbackOk {
          guestByte := savedOpcode;
          stepping := true;
        }
      } else if pending == SingleStep && callbackOk {
        guestByte := INT3;
        stepping := false;
      }
      pending := Nothing;
    }
  }

  /** One turn of the event loop: what the guest does, and whether the callback's write succeeds. */
  datatype Turn = Turn(step: GuestStep, writeOk: bool)

  /** Any run of the guest and the callbacks, up to the first write that fails: the protocol's
      invariant holds, no entry is missed and each is counted once. */
  method TraceRun(t: Tracer, turns: seq<Turn>) returns (handled: nat)
    requires t.Armed() && t.pending == Nothing && !t.interrupted
    modifies t
    ensures t.Armed() && t.pending == Nothing && t.original == old(t.original)
    ensures t.hitCount == t.entered && t.unseen == 0 && old(t.entered) <= t.entered
    ensures t.guestByte == 0xCC <==> !t.stepping
    ensures t.stepping ==> t.guestByte == t.original
    ensures handled <= |turns|
    ensures if t.interrupted then handled > 0 && !turns[handled - 1].writeOk else handled == |turns|
    ensures (forall i :: 0 <= i < |turns| ==> turns[i].writeOk) ==> !t.interrupted
  {
    handled := 0;
    while handled < |turns| && !t.interrupted
      invariant 0 <= handled <= |turns|
      invariant t.Armed() && t.pending == Nothing && t.original == old(t.original)
      invariant old(t.entered) <= t.entered
      invariant t.interrupted ==> handled > 0 && !turns[handled - 1].writeOk
      decreases |turns| - handled
    {
      var turn := turns[handled];
      t.Guest(turn.step);
      if t.pending == SingleStep {
        t.SingleStepCb(turn.writeOk);
      } else if t.pending != Nothing {
        var _ := t.BreakpointCb(turn.writeOk);
      }
      handled := handled + 1;
    }
  }

  /** A whole session: setup, a run with any write outcomes, whatever the guest does before it is
      paused, and the exit. Every entry has been counted, and the guest's byte is back exactly when
      no single-step event was pending or its callback could not write, and the byte was out of the
      way already or a write put it back. */
  method Session(code: Byte, turns: seq<Turn>, last: GuestStep, restoreOk: bool, callbackOk: bool)
    returns (t: Tracer, stepping: bool)
    requires code != INT3
    ensures t.original == code && t.hitCount == t.entered && t.unseen == 0
    ensures t.guestByte == code <==>
            if stepping then last != FinishStep || !callbackOk
            else (code != 0 && restoreOk) || (last == RunEntry && callbackOk)
  {
    t := new Tracer(code);
    var _ := TraceRun(t, turns);
    stepping := t.stepping;
    t.Guest(last);
    t.Exit(restoreOk, callbackOk);
  }
}
