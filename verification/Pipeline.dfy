/**
 The tracer's frames feeding the detector's windows: what the server's loop in threaded_client
 hands to append_BoSC, and what the call lost between two frames does to the learned model.
 */
module Pipeline {
  import opened Common
  import Bosc
  import Frames

  /** A trace as the detector receives it: runs of `w` calls, the call after each run missing, and
      an unfinished run not sent. */
  function Delivered(trace: seq<string>, w: nat): seq<string>
    decreases |trace|
  {
    if |trace| < w + 1 then [] else trace[..w] + Delivered(trace[w + 1..], w)
  }

  /** The runs before position `k` runs in, and what follows them. */
  lemma {:induction false} DeliveredFrom(trace: seq<string>, w: nat, k: nat)
    requires Frames.RunStart(k, w) <= |trace|
    ensures var n := Frames.RunStart(k, w);
            Delivered(trace, w) == Delivered(trace[..n], w) + Delivered(trace[n..], w)
    decreases k
  {
    hide Frames.RunStart;
    Frames.Runs(if k == 0 then 0 else k - 1, w);
    if k == 0 {
      assert trace[0..] == trace;
    } else {
      var n, m := Frames.RunStart(k, w), Frames.RunStart(k - 1, w);
      DeliveredFrom(trace[w + 1..], w, k - 1);
      assert trace[..n][w + 1..] == trace[w + 1..][..m];
      assert trace[w + 1..][m..] == trace[n..];
      assert trace[..n][..w] == trace[..w];
    }
  }

  /** One more run. */
  lemma DeliveredRun(trace: seq<string>, w: nat, k: nat)
    requires Frames.RunStart(k, w) + w + 1 <= |trace|
    ensures Frames.RunStart(k + 1, w) <= |trace|
    ensures Delivered(trace[..Frames.RunStart(k + 1, w)], w) ==
            Delivered(trace[..Frames.RunStart(k, w)], w) + trace[Frames.RunStart(k, w)..Frames.RunStart(k, w) + w]
  {
    hide Frames.RunStart;
    Frames.Runs(k, w);
    var n := Frames.RunStart(k, w);
    var t := trace[..n + w + 1];
    DeliveredFrom(t, w, k);
    assert t[..n] == trace[..n] && t[n..][..w] == trace[n..n + w] && t[n..][w + 1..] == [];
  }

  /** Sending a trace frame by frame and decoding each frame delivers exactly that. */
  method ServerFeed(w: nat, trace: seq<string>, bound: nat) returns (received: seq<string>)
    requires w >= 1
    requires forall i :: 0 <= i < |trace| ==> Frames.Clean(trace[i]) && |trace[i]| <= bound
    ensures received == Delivered(trace, w)
  {
    hide Frames.Clean, Frames.RunStart, Frames.Decode, Delivered;
    var frames := Frames.SendTrace(w, trace, bound);
    received := [];
    NothingDelivered(trace, w);
    var k := 0;
    while k < |frames|
      invariant 0 <= k <= |frames|
      invariant Frames.RunStart(k, w) <= |trace|
      invariant received == Delivered(trace[..Frames.RunStart(k, w)], w)
    {
      assert Frames.Carries(frames[k], trace, w, bound, k);
      RunFits(|trace|, w, k);
      DeliveredRun(trace, w, k);
      received := received + Frames.Decode(frames[k]);
      k := k + 1;
    }
    LastRun(trace, w, k);
  }

  lemma NothingDelivered(trace: seq<string>, w: nat)
    ensures Frames.RunStart(0, w) == 0 && Delivered(trace[..0], w) == []
  {
  }

  lemma RunFits(n: nat, w: nat, k: nat)
    requires k < n / (w + 1)
    ensures Frames.RunStart(k, w) + w + 1 <= n
  {
    var q, r := n / (w + 1), n % (w + 1);
    assert n == q * (w + 1) + r;
    Multiples(q - k, w + 1);
    assert (q - k) * (w + 1) == q * (w + 1) - k * (w + 1);
  }

  lemma LastRun(trace: seq<string>, w: nat, k: nat)
    requires k == |trace| / (w + 1) && Frames.RunStart(k, w) <= |trace|
    ensures Delivered(trace, w) == Delivered(trace[..Frames.RunStart(k, w)], w)
  {
    hide Frames.RunStart;
    DeliveredFrom(trace, w, k);
    Unfinished(|trace|, w);
  }

  lemma Unfinished(n: nat, w: nat)
    ensures n - Frames.RunStart(n / (w + 1), w) < w + 1
  {
    assert n == n / (w + 1) * (w + 1) + n % (w + 1);
  }

  // ---------------------------------------------------------------- windows over the gaps

  /** Where the k-th run starts in what is delivered. */
  function RunPlace(k: nat, w: nat): nat { k * w }

  lemma Places(k: nat, w: nat)
    ensures RunPlace(0, w) == 0 && RunPlace(k + 1, w) == RunPlace(k, w) + w
  {
  }

  lemma {:induction false} DeliveredAt(trace: seq<string>, w: nat, k: nat, r: nat)
    requires r < w && Frames.RunStart(k + 1, w) <= |trace|
    ensures RunPlace(k + 1, w) <= |Delivered(trace, w)|
    ensures RunPlace(k, w) + r < |Delivered(trace, w)| && Frames.RunStart(k, w) + r < |trace|
    ensures Delivered(trace, w)[RunPlace(k, w) + r] == trace[Frames.RunStart(k, w) + r]
    decreases k
  {
    hide Frames.RunStart, RunPlace;
    Places(k, w);
    Frames.Runs(k, w);
    if k > 0 {
      Places(k - 1, w);
      Frames.Runs(k - 1, w);
      DeliveredAt(trace[w + 1..], w, k - 1, r);
    }
  }

  lemma {:induction false} DeliveredLength(trace: seq<string>, w: nat, k: nat, rest: nat)
    requires rest <= w && |trace| == Frames.RunStart(k, w) + rest
    ensures |Delivered(trace, w)| == RunPlace(k, w)
    decreases k
  {
    hide Frames.RunStart, RunPlace;
    Places(if k == 0 then 0 else k - 1, w);
    Frames.Runs(if k == 0 then 0 else k - 1, w);
    if k > 0 {
      DeliveredLength(trace[w + 1..], w, k - 1, rest);
    }
  }

  /** The calls on both sides of the gap after run `k`: the run from its r-th call on, and the
      first `r` calls of the next run. */
  function Seam(trace: seq<string>, w: nat, k: nat, r: nat): seq<string>
    requires r < w && Frames.RunStart(k, w) + w + 1 + r <= |trace|
  {
    var n := Frames.RunStart(k, w);
    trace[n + r..n + w] + trace[n + w + 1..n + w + 1 + r]
  }

  lemma TwoRuns(k: nat, w: nat)
    ensures Frames.RunStart(k + 1, w) == Frames.RunStart(k, w) + w + 1
    ensures Frames.RunStart(k + 2, w) == Frames.RunStart(k, w) + 2 * w + 2
    ensures RunPlace(k + 1, w) == RunPlace(k, w) + w && RunPlace(k + 2, w) == RunPlace(k, w) + 2 * w
  {
    Frames.Runs(k, w);
    Frames.Runs(k + 1, w);
    Places(k, w);
    Places(k + 1, w);
  }

  /** Every window of what is delivered is a seam, an ordinary window of the trace when r is 0. */
  lemma DeliveredWindow(trace: seq<string>, w: nat, k: nat, r: nat)
    requires r < w && Frames.RunStart(k + 2, w) <= |trace|
    ensures Frames.RunStart(k, w) + w + 1 + r <= |trace| && RunPlace(k, w) + r + w < |Delivered(trace, w)|
    ensures Delivered(trace, w)[RunPlace(k, w) + r..RunPlace(k, w) + r + w] == Seam(trace, w, k, r)
  {
    hide Frames.RunStart, RunPlace, Delivered;
    TwoRuns(k, w);
    DeliveredAt(trace, w, k + 1, r);
    var p, d, u := RunPlace(k, w) + r, Delivered(trace, w), Seam(trace, w, k, r);
    forall i | 0 <= i < w ensures d[p + i] == u[i] {
      if i < w - r {
        DeliveredAt(trace, w, k, r + i);
      } else {
        DeliveredAt(trace, w, k + 1, r + i - w);
      }
    }
    assert d[p..p + w] == u;
  }

  /** A position of what is delivered whose window another call follows lies in a run that a
      further run follows. */
  lemma PlaceOfWindow(trace: seq<string>, w: nat, j: nat) returns (k: nat, r: nat)
    requires w >= 1 && j + w < |Delivered(trace, w)|
    ensures r < w && j == RunPlace(k, w) + r && Frames.RunStart(k + 2, w) <= |trace|
  {
    hide Delivered;
    k, r := j / w, j % w;
    var runs, rest := |trace| / (w + 1), |trace| % (w + 1);
    assert |trace| == runs * (w + 1) + rest;
    DeliveredLength(trace, w, runs, rest);
    assert j == k * w + r;
    FurtherRun(k, r, runs, w);
    RunsBelow(k + 2, runs, w);
  }

  lemma FurtherRun(k: nat, r: nat, runs: nat, w: nat)
    requires k * w + r + w < runs * w
    ensures k + 2 <= runs
  {
    if runs < k + 2 {
      Scaled(runs, k + 1, w);
      assert false;
    }
  }

  lemma Scaled(a: nat, b: nat, w: nat)
    requires a <= b
    ensures a * w <= b * w
  {
  }

  lemma RunsBelow(k: nat, runs: nat, w: nat)
    requires k <= runs
    ensures Frames.RunStart(k, w) <= runs * (w + 1)
  {
    Scaled(k, runs, w + 1);
  }

  // ---------------------------------------------------------------- when the detector sees only learned windows

  ghost predicate AlikeAt(lut: Bosc.Lut, trace: seq<string>, w: nat, u: seq<string>, i: nat) {
    i + w < |trace| && Bosc.Alike(lut, u, trace[i..i + w])
  }

  /** Some learned window has the same counts of known calls and as many unknown ones. */
  ghost predicate Familiar(lut: Bosc.Lut, trace: seq<string>, w: nat, u: seq<string>) {
    exists i: nat :: AlikeAt(lut, trace, w, u, i)
  }

  lemma LearnedIffFamiliar(lut: Bosc.Lut, trace: seq<string>, w: nat, u: seq<string>)
    requires Bosc.ValidLut(lut)
    ensures Bosc.Learned(lut, trace, w, Bosc.Key(lut, u)) <==> Familiar(lut, trace, w, u)
  {
    hide Bosc.Key, Bosc.Alike, Bosc.ValidLut;
    forall i: nat ensures Bosc.KeyAt(lut, trace, w, i, Bosc.Key(lut, u)) <==> AlikeAt(lut, trace, w, u, i) {
      if i + w < |trace| {
        Bosc.SameKey(lut, u, trace[i..i + w]);
      }
    }
  }

  ghost predicate WindowLearned(lut: Bosc.Lut, trace: seq<string>, w: nat, j: nat) {
    var d := Delivered(trace, w);
    j + w < |d| ==> Bosc.Learned(lut, trace, w, Bosc.Key(lut, d[j..j + w]))
  }

  ghost predicate SeamFamiliar(lut: Bosc.Lut, trace: seq<string>, w: nat, k: nat, r: nat) {
    0 < r < w && Frames.RunStart(k, w) + 2 * w + 2 <= |trace| ==> Familiar(lut, trace, w, Seam(trace, w, k, r))
  }

  /** Every seam that the trace holds looks like a learned window. */
  ghost predicate SeamsFamiliar(lut: Bosc.Lut, trace: seq<string>, w: nat) {
    forall k: nat, r: nat :: SeamFamiliar(lut, trace, w, k, r)
  }

  lemma SeamLearned(lut: Bosc.Lut, trace: seq<string>, w: nat, k: nat, r: nat)
    requires Bosc.ValidLut(lut) && r < w && Frames.RunStart(k + 2, w) <= |trace|
    ensures WindowLearned(lut, trace, w, RunPlace(k, w) + r) <==> r == 0 || SeamFamiliar(lut, trace, w, k, r)
  {
    hide Bosc.Key, Bosc.ValidLut, Delivered, RunPlace, Frames.RunStart, Familiar, Bosc.Learned;
    TwoRuns(k, w);
    DeliveredWindow(trace, w, k, r);
    var u := Seam(trace, w, k, r);
    LearnedIffFamiliar(lut, trace, w, u);
    if r == 0 {
      var n := Frames.RunStart(k, w);
      assert u == trace[n..n + w];
      WindowOfTrace(lut, trace, w, n);
    }
  }

  lemma WindowOfTrace(lut: Bosc.Lut, trace: seq<string>, w: nat, n: nat)
    requires n + w < |trace|
    ensures Bosc.Learned(lut, trace, w, Bosc.Key(lut, trace[n..n + w]))
  {
    assert Bosc.KeyAt(lut, trace, w, n, Bosc.Key(lut, trace[n..n + w]));
  }

  /** All windows that the detector forms from the delivered trace were learned from the trace
      exactly when every seam looks like a learned window. */
  lemma DeliveredLearnedIff(lut: Bosc.Lut, trace: seq<string>, w: nat)
    requires Bosc.ValidLut(lut) && w >= 1
    ensures (forall j: nat :: WindowLearned(lut, trace, w, j)) <==> SeamsFamiliar(lut, trace, w)
  {
    hide Bosc.ValidLut, WindowLearned, SeamFamiliar, Frames.RunStart, RunPlace;
    if SeamsFamiliar(lut, trace, w) {
      forall j: nat ensures WindowLearned(lut, trace, w, j) {
        WindowFromSeams(lut, trace, w, j);
      }
    }
    if forall j: nat :: WindowLearned(lut, trace, w, j) {
      forall k: nat, r: nat ensures SeamFamiliar(lut, trace, w, k, r) {
        SeamFromWindows(lut, trace, w, k, r);
      }
    }
  }

  lemma WindowFromSeams(lut: Bosc.Lut, trace: seq<string>, w: nat, j: nat)
    requires Bosc.ValidLut(lut) && w >= 1 && SeamsFamiliar(lut, trace, w)
    ensures WindowLearned(lut, trace, w, j)
  {
    hide Bosc.ValidLut, SeamFamiliar, Frames.RunStart, RunPlace, Delivered, Bosc.Learned, Bosc.Key;
    if j + w < |Delivered(trace, w)| {
      var k, r := PlaceOfWindow(trace, w, j);
      SeamLearned(lut, trace, w, k, r);
      assert SeamFamiliar(lut, trace, w, k, r);
    }
  }

  lemma SeamFromWindows(lut: Bosc.Lut, trace: seq<string>, w: nat, k: nat, r: nat)
    requires Bosc.ValidLut(lut) && w >= 1 && forall j: nat :: WindowLearned(lut, trace, w, j)
    ensures SeamFamiliar(lut, trace, w, k, r)
  {
    hide Bosc.ValidLut, WindowLearned, Frames.RunStart, RunPlace, Familiar, Seam;
    TwoRuns(k, w);
    if 0 < r < w && Frames.RunStart(k, w) + 2 * w + 2 <= |trace| {
      SeamLearned(lut, trace, w, k, r);
      assert WindowLearned(lut, trace, w, RunPlace(k, w) + r);
    }
  }

  /** The learner reads names from a file in which a blank precedes each of them; the frames carry
      them without it. */
  ghost predicate Blank(name: string) { name != "" && name[0] == ' ' }

  lemma {:induction false} DeliveredFromTrace(trace: seq<string>, w: nat, j: nat)
    requires j < |Delivered(trace, w)|
    ensures Delivered(trace, w)[j] in trace
    decreases |trace|
  {
    if j >= w {
      DeliveredFromTrace(trace[w + 1..], w, j - w);
    }
  }

  /** The table's names have the blank and those sent do not. */
  ghost predicate SpelledApart(lut: Bosc.Lut, trace: seq<string>) {
    (forall s :: s in lut ==> Blank(s)) && forall i :: 0 <= i < |trace| ==> !Blank(trace[i])
  }

  /** Then no call that is delivered is known. */
  lemma DeliveredUnknown(lut: Bosc.Lut, trace: seq<string>, w: nat, j: nat)
    requires SpelledApart(lut, trace) && j + w <= |Delivered(trace, w)|
    ensures Bosc.Unknown(lut, Delivered(trace, w)[j..j + w]) == w
  {
    hide Delivered, Blank, Bosc.Unknown;
    var d := Delivered(trace, w);
    var u := d[j..j + w];
    forall k | 0 <= k < w ensures u[k] !in lut {
      DeliveredFromTrace(trace, w, j + k);
    }
    Bosc.AllUnknown(lut, u);
  }

  /** The key was learned exactly when some learned window holds no known call, so not with a table
      that lists every call logged. */
  ghost predicate StrangeKey(lut: Bosc.Lut, logged: seq<string>, w: nat, key: string) {
    && (Bosc.Learned(lut, logged, w, key) <==> exists i: nat :: Bosc.StrangersAt(lut, logged, w, i))
    && ((forall i :: 0 <= i < |logged| ==> logged[i] in lut) ==> !Bosc.Learned(lut, logged, w, key))
  }

  /** The key is a length, and was learned exactly when the learner had no table. */
  ghost predicate BareKey(lut: Bosc.Lut, logged: seq<string>, w: nat, key: string) {
    && key == "[" + Bosc.Decimal(w) + "]"
    && (Bosc.Learned(lut, logged, w, key) <==> lut == map[] && |logged| > w)
  }

  /** A learner that read `logged` with `lut`, and a trace sent in frames, decoded and judged by a
      detector that holds `table`. The anomalies reported are the queries that raised, and as for
      the keys formed:
      - if both hold one table and spell names alike, every key was learned exactly when every seam
        looks like a learned window;
      - if the table's names have the blank and those sent do not, a key was learned exactly when
        some learned window holds no known call, and never with a complete table;
      - without a table, as the server runs, no key was learned unless the learner had none either. */
  method Analyze(lut: Bosc.Lut, logged: seq<string>, table: Bosc.Lut, w: nat, trace: seq<string>, bound: nat,
                 raised: seq<bool>)
    returns (formed: seq<string>, anomalies: nat)
    requires w >= 1 && Bosc.ValidLut(lut) && Bosc.ValidLut(table)
    requires forall i :: 0 <= i < |trace| ==> Frames.Clean(trace[i]) && |trace[i]| <= bound
    requires |raised| == |Delivered(trace, w)|
    ensures forall j :: 0 <= j < |formed| ==> Bosc.KeyAt(table, Delivered(trace, w), w, j, formed[j])
    ensures table == lut && logged == trace ==>
              ((forall j :: 0 <= j < |formed| ==> Bosc.Learned(lut, trace, w, formed[j])) <==>
               SeamsFamiliar(lut, trace, w))
    ensures table == lut && SpelledApart(lut, trace) ==>
              forall j :: 0 <= j < |formed| ==> StrangeKey(lut, logged, w, formed[j])
    ensures table == map[] ==> forall j :: 0 <= j < |formed| ==> BareKey(lut, logged, w, formed[j])
    ensures anomalies == Bosc.CountTrue(Bosc.Queries(raised, w))
  {
    hide Bosc.ValidLut, Frames.Clean, Delivered, Bosc.Key, Bosc.Learned, SeamsFamiliar, Bosc.CountTrue, Bosc.Queries,
         SpelledApart, StrangeKey, BareKey;
    var received := ServerFeed(w, trace, bound);
    var detector := new Bosc.Creator(w, table, []);
    formed, anomalies := Bosc.Replay(detector, received, raised);
    DeliveredLearnedIff(lut, trace, w);
    if table == lut {
      FormedLearned(lut, trace, w, formed);
    }
    forall j | 0 <= j < |formed|
      ensures table == lut && SpelledApart(lut, trace) ==> StrangeKey(lut, logged, w, formed[j])
      ensures table == map[] ==> BareKey(lut, logged, w, formed[j])
    {
      MismatchedKey(lut, logged, table, w, trace, j, formed[j]);
    }
  }

  lemma MismatchedKey(lut: Bosc.Lut, logged: seq<string>, table: Bosc.Lut, w: nat, trace: seq<string>, j: nat,
                      key: string)
    requires w >= 1 && Bosc.ValidLut(lut) && Bosc.KeyAt(table, Delivered(trace, w), w, j, key)
    ensures table == lut && SpelledApart(lut, trace) ==> StrangeKey(lut, logged, w, key)
    ensures table == map[] ==> BareKey(lut, logged, w, key)
  {
    hide Bosc.ValidLut, Delivered, Bosc.Key, Bosc.Learned, Bosc.Unknown, Bosc.StrangersAt, SpelledApart;
    var u := Delivered(trace, w)[j..j + w];
    if table == map[] {
      Bosc.KeyWithoutTable(u);
      Bosc.LearnedWithoutTable(lut, logged, w, u);
    }
    if table == lut && SpelledApart(lut, trace) {
      DeliveredUnknown(lut, trace, w, j);
      Bosc.StrangersLearned(lut, logged, w, u);
      if forall i :: 0 <= i < |logged| ==> logged[i] in lut {
        forall i: nat ensures !Bosc.StrangersAt(lut, logged, w, i) {
          Bosc.NoStrangers(lut, logged, w, i);
        }
      }
    }
  }

  /** The keys formed are those of the delivered windows that another call follows. */
  lemma FormedLearned(lut: Bosc.Lut, trace: seq<string>, w: nat, formed: seq<string>)
    requires |formed| == if |Delivered(trace, w)| <= w then 0 else |Delivered(trace, w)| - w
    requires forall j :: 0 <= j < |formed| ==> Bosc.KeyAt(lut, Delivered(trace, w), w, j, formed[j])
    ensures (forall j :: 0 <= j < |formed| ==> Bosc.Learned(lut, trace, w, formed[j])) <==>
            forall j: nat :: WindowLearned(lut, trace, w, j)
  {
    hide Delivered, Bosc.Key, Bosc.Learned;
    forall j: nat | j < |formed| ensures Bosc.Learned(lut, trace, w, formed[j]) <==> WindowLearned(lut, trace, w, j) {
      assert Bosc.KeyAt(lut, Delivered(trace, w), w, j, formed[j]);
    }
  }

  // ---------------------------------------------------------------- an unfamiliar seam

  const SIX := ["a", "b", "c", "d", "e", "f"]
  const SIX_LUT: Bosc.Lut := map["b" := 0, "d" := 1]

  /** With windows of two, the gap makes "b" and "d" neighbours, which they are nowhere in the
      trace. */
  lemma LostCallMisleads()
    ensures Bosc.ValidLut(SIX_LUT) && !SeamsFamiliar(SIX_LUT, SIX, 2)
    ensures exists j: nat :: !WindowLearned(SIX_LUT, SIX, 2, j)
  {
    hide Bosc.ValidLut, Bosc.Alike, WindowLearned, Seam;
    SixNumbered();
    SixSeam();
    forall i: nat ensures !AlikeAt(SIX_LUT, SIX, 2, Seam(SIX, 2, 0, 1), i) {
      if i + 2 < |SIX| {
        NotNeighbours(i);
      }
    }
    assert !SeamFamiliar(SIX_LUT, SIX, 2, 0, 1);
    DeliveredLearnedIff(SIX_LUT, SIX, 2);
  }

  lemma SixNumbered()
    ensures Bosc.ValidLut(SIX_LUT)
  {
  }

  lemma SixSeam()
    ensures Seam(SIX, 2, 0, 1) == ["b", "d"]
  {
  }

  lemma NotNeighbours(j: nat)
    requires j + 2 < |SIX|
    ensures !Bosc.Alike(SIX_LUT, ["b", "d"], SIX[j..j + 2])
  {
    hide Bosc.Unknown;
    var u, v := multiset(["b", "d"]), multiset(SIX[j..j + 2]);
    assert SIX[j..j + 2] == [SIX[j], SIX[j + 1]];
    assert "b" in SIX_LUT && "d" in SIX_LUT;
    assert u["b"] != v["b"] || u["d"] != v["d"];
  }
}
