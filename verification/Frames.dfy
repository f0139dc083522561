/**
 The frames in which the tracer sends system-call names to the detector (append_syscall in
 src/client.h) and how the server takes them apart (server/server.py).
 */
module Frames {
  import opened Common

  const SEPARATOR := ','
  const END := '.'

  /** Each name followed by a separator. */
  function Joined(names: seq<string>): string {
    if names == [] then "" else names[0] + [SEPARATOR] + Joined(names[1..])
  }

  /** str.split(","): the pieces between separators. */
  function SplitCommas(s: string): seq<string> {
    if SEPARATOR !in s then [s]
    else
      var i := IndexOf(s);
      [s[..i]] + SplitCommas(s[i + 1..])
  }

  function IndexOf(s: string): (i: nat)
    requires SEPARATOR in s
    ensures i < |s| && s[i] == SEPARATOR && SEPARATOR !in s[..i]
  {
    if s[0] == SEPARATOR then 0
    else
      var i := 1 + IndexOf(s[1..]);
      assert s[..i] == [s[0]] + s[1..][..i - 1];
      i
  }

  /** The decoder of threaded_client: the last two characters go, the rest is split. */
  function Decode(frame: string): seq<string>
    requires |frame| >= 2
  {
    SplitCommas(frame[..|frame| - 2])
  }

  ghost predicate Clean(name: string) { SEPARATOR !in name }

  lemma FirstPiece(name: string, rest: string)
    requires Clean(name)
    ensures SplitCommas(name + [SEPARATOR] + rest) == [name] + SplitCommas(rest)
  {
    var s := name + [SEPARATOR] + rest;
    assert s[|name|] == SEPARATOR;
    var i := IndexOf(s);
    assert forall k :: 0 <= k < i ==> s[k] == s[..i][k] && s[k] != SEPARATOR;
    assert forall k :: 0 <= k < |name| ==> s[k] == name[k];
    assert i == |name|;
    assert s[..i] == name && s[i + 1..] == rest;
  }

  lemma {:induction false} JoinedEnds(names: seq<string>)
    requires names != []
    ensures |Joined(names)| >= 1 && Joined(names)[|Joined(names)| - 1] == SEPARATOR
  {
    if |names| > 1 {
      JoinedEnds(names[1..]);
    } else {
      assert names[1..] == [];
    }
  }

  /** The names joined, without the last separator. */
  function Trimmed(names: seq<string>): string
    requires names != []
  {
    JoinedEnds(names);
    Joined(names)[..|Joined(names)| - 1]
  }

  lemma TrimmedParts(names: seq<string>)
    requires names != []
    ensures Trimmed(names) == if |names| == 1 then names[0] else names[0] + [SEPARATOR] + Trimmed(names[1..])
  {
    if |names| == 1 {
      assert names[1..] == [];
    } else {
      JoinedEnds(names[1..]);
    }
  }

  lemma {:induction false} SplitTrimmed(names: seq<string>)
    requires names != [] && forall k :: 0 <= k < |names| ==> Clean(names[k])
    ensures SplitCommas(Trimmed(names)) == names
  {
    hide Trimmed;
    TrimmedParts(names);
    if |names| > 1 {
      FirstPiece(names[0], Trimmed(names[1..]));
      SplitTrimmed(names[1..]);
    } else {
      assert Clean(names[0]);
    }
  }

  /** A frame of comma-free names decodes to those names. */
  lemma DecodeJoined(names: seq<string>)
    requires names != [] && forall k :: 0 <= k < |names| ==> Clean(names[k])
    ensures |Joined(names) + "."| >= 2 && Decode(Joined(names) + ".") == names
  {
    hide SplitCommas;
    JoinedEnds(names);
    SplitTrimmed(names);
    var frame := Joined(names) + [END];
    assert frame[..|frame| - 2] == Trimmed(names);
  }

  lemma {:induction false} JoinedSnoc(names: seq<string>, name: string)
    ensures Joined(names + [name]) == Joined(names) + name + ","
  {
    if names == [] {
      assert names + [name] == [name] && [name][1..] == [];
    } else {
      assert (names + [name])[1..] == names[1..] + [name];
      JoinedSnoc(names[1..], name);
    }
  }

  lemma {:induction false} JoinedLength(names: seq<string>, bound: nat)
    requires forall k :: 0 <= k < |names| ==> |names[k]| <= bound
    ensures |Joined(names)| <= |names| * (bound + 1)
  {
    if names != [] {
      JoinedLength(names[1..], bound);
    }
  }

  class Sender {
    const windowSize: nat
    var buffer: string
    var frameIndex: nat
    ghost var buffered: seq<string>  // the names in the buffer

    ghost predicate Valid()
      reads this
    {
      buffer == Joined(buffered) && frameIndex == |buffered| <= windowSize
    }

    constructor (windowSize: nat)
      ensures Valid() && this.windowSize == windowSize && buffered == []
    {
      this.windowSize := windowSize;
      buffer, frameIndex, buffered := "", 0, [];
    }

    /** append_syscall. The call that finds the window full sends it, and its own name is lost. */
    method AppendSyscall(name: string) returns (frame: Option<string>)
      requires Valid()
      modifies this
      ensures Valid()
      ensures if |old(buffered)| == windowSize
              then buffered == [] && frame == Some(Joined(old(buffered)) + ".")
              else buffered == old(buffered) + [name] && frame == None
    {
      if frameIndex == windowSize {
        frameIndex := 0;
        buffer := buffer + [END];
        frame := Some(buffer);
        buffer, buffered := "", [];
      } else {
        JoinedSnoc(buffered, name);
        buffer := buffer + name + [SEPARATOR];
        buffered := buffered + [name];
        frameIndex := frameIndex + 1;
        frame := None;
      }
    }
  }

  /** Where the k-th run of `w` calls starts: one call is dropped after each run. */
  function RunStart(k: nat, w: nat): nat { k * (w + 1) }

  /** `frame` carries the k-th run of the trace, and fits: with its terminating zero it takes at
      most w * (bound + 1) + 2 bytes for names of at most `bound` characters. */
  ghost predicate Carries(frame: string, trace: seq<string>, w: nat, bound: nat, k: nat) {
    && 2 <= |frame| <= w * (bound + 1) + 1
    && RunStart(k, w) + w <= |trace|
    && Decode(frame) == trace[RunStart(k, w)..RunStart(k, w) + w]
  }

  /** Over any trace, the k-th frame decodes to the k-th run of `windowSize` calls. */
  method SendTrace(windowSize: nat, trace: seq<string>, bound: nat) returns (frames: seq<string>)
    requires windowSize >= 1
    requires forall i :: 0 <= i < |trace| ==> Clean(trace[i]) && |trace[i]| <= bound
    ensures |frames| == |trace| / (windowSize + 1)
    ensures forall k :: 0 <= k < |frames| ==> Carries(frames[k], trace, windowSize, bound, k)
  {
    hide RunStart, Carries, Clean, Decode, Joined;
    var sender := new Sender(windowSize);
    frames := [];
    Runs(0, windowSize);
    var i := 0;
    while i < |trace|
      invariant 0 <= i <= |trace| && sender.Valid() && fresh(sender) && sender.windowSize == windowSize
      invariant i == RunStart(|frames|, windowSize) + |sender.buffered|
      invariant sender.buffered == trace[RunStart(|frames|, windowSize)..i]
      invariant forall k :: 0 <= k < |frames| ==> Carries(frames[k], trace, windowSize, bound, k)
    {
      Runs(|frames|, windowSize);
      ghost var names := sender.buffered;
      var frame := sender.AppendSyscall(trace[i]);
      if frame.Some? {
        FullFrame(names, trace, windowSize, bound, |frames|);
        frames := frames + [frame.value];
      }
      i := i + 1;
    }
    WholeRuns(|frames|, windowSize, |sender.buffered|);
  }

  lemma Runs(k: nat, w: nat)
    ensures RunStart(0, w) == 0 && RunStart(k + 1, w) == RunStart(k, w) + w + 1
  {
  }

  lemma WholeRuns(k: nat, w: nat, r: nat)
    requires r <= w
    ensures (RunStart(k, w) + r) / (w + 1) == k
  {
    DivUnique(k, w + 1, r);
  }

  lemma FullFrame(names: seq<string>, trace: seq<string>, w: nat, bound: nat, k: nat)
    requires |names| == w >= 1 && RunStart(k, w) + w <= |trace|
    requires names == trace[RunStart(k, w)..RunStart(k, w) + w]
    requires forall i :: 0 <= i < |trace| ==> Clean(trace[i]) && |trace[i]| <= bound
    ensures Carries(Joined(names) + [END], trace, w, bound, k)
  {
    hide RunStart, Clean, Decode, Joined;
    forall i | 0 <= i < |names| ensures Clean(names[i]) && |names[i]| <= bound {
      assert names[i] == trace[RunStart(k, w) + i];
    }
    DecodeJoined(names);
    JoinedLength(names, bound);
  }
}
