/**
 The bag-of-system-calls learner and detector (server/BoSC.py, server/db_utils.py): a sliding
 window over a trace, the vector of occurrence counts of a window, and its text form, which is
 what the database stores and looks up.
 */
module Bosc {
  import opened Common

  type Syscall = string

  /** The lookup table: distinct known calls, numbered from zero without gaps. */
  type Lut = map<Syscall, nat>

  ghost predicate ValidLut(lut: Lut) {
    && (forall s :: s in lut ==> lut[s] < |lut|)
    && (forall s, t :: s in lut && t in lut && lut[s] == lut[t] ==> s == t)
  }

  /** The slot a call is counted in: unknown calls share the last one. */
  function Slot(lut: Lut, s: Syscall): nat { if s in lut then lut[s] else |lut| }

  /** How many calls of the window are counted in slot `k`. */
  function Tally(lut: Lut, window: seq<Syscall>, k: nat): nat {
    if window == [] then 0
    else (if Slot(lut, window[0]) == k then 1 else 0) + Tally(lut, window[1..], k)
  }

  function Bag(lut: Lut, window: seq<Syscall>): seq<nat> {
    seq(|lut| + 1, k requires 0 <= k => Tally(lut, window, k))
  }

  // ---------------------------------------------------------------- what a bag says

  lemma {:induction false} TallySplit(lut: Lut, u: seq<Syscall>, v: seq<Syscall>, k: nat)
    ensures Tally(lut, u + v, k) == Tally(lut, u, k) + Tally(lut, v, k)
  {
    if u == [] {
      assert u + v == v;
    } else {
      assert (u + v)[1..] == u[1..] + v;
      TallySplit(lut, u[1..], v, k);
    }
  }

  /** A known call's slot holds its number of occurrences. */
  lemma {:induction false} TallyKnown(lut: Lut, window: seq<Syscall>, s: Syscall)
    requires ValidLut(lut) && s in lut
    ensures Tally(lut, window, lut[s]) == multiset(window)[s]
  {
    if window != [] {
      assert window == [window[0]] + window[1..];
      assert multiset(window) == multiset{window[0]} + multiset(window[1..]);
      TallyKnown(lut, window[1..], s);
    }
  }

  /** The number of calls of the window that the table does not know. */
  function Unknown(lut: Lut, window: seq<Syscall>): nat {
    if window == [] then 0 else (if window[0] in lut then 0 else 1) + Unknown(lut, window[1..])
  }

  lemma {:induction false} TallyUnknown(lut: Lut, window: seq<Syscall>)
    requires ValidLut(lut)
    ensures Tally(lut, window, |lut|) == Unknown(lut, window)
  {
    if window != [] {
      TallyUnknown(lut, window[1..]);
    }
  }

  /** Every slot below the last belongs to a known call. */
  lemma SlotOwner(lut: Lut, k: nat) returns (s: Syscall)
    requires ValidLut(lut) && k < |lut|
    ensures s in lut && lut[s] == k
  {
    if forall t :: t in lut ==> lut[t] != k {
      var slots := set t | t in lut :: lut[t];
      ImageSize(lut, lut.Keys);
      Pigeonhole(slots, k, |lut|);
      assert false;
    }
    s :| s in lut && lut[s] == k;
  }

  lemma {:induction false} ImageSize(lut: Lut, keys: set<Syscall>)
    requires ValidLut(lut) && keys <= lut.Keys
    ensures |set t | t in keys :: lut[t]| == |keys|
    decreases keys
  {
    if keys == {} {
      assert (set t | t in keys :: lut[t]) == {};
    } else {
      var t :| t in keys;
      ImageSize(lut, keys - {t});
      assert (set u | u in keys :: lut[u]) == (set u | u in keys - {t} :: lut[u]) + {lut[t]};
    }
  }

  lemma {:induction false} Pigeonhole(slots: set<nat>, hole: nat, n: nat)
    requires hole < n && hole !in slots && forall k :: k in slots ==> k < n
    ensures |slots| < n
    decreases n
  {
    if n - 1 == hole {
      Bounded(slots, hole);
    } else {
      Pigeonhole(slots - {n - 1}, hole, n - 1);
    }
  }

  lemma {:induction false} Bounded(slots: set<nat>, n: nat)
    requires forall k :: k in slots ==> k < n
    ensures |slots| <= n
    decreases n
  {
    if n == 0 {
      assert slots == {};
    } else {
      Bounded(slots - {n - 1}, n - 1);
    }
  }

  /** Every known call occurs equally often in both windows, and they hold equally many unknown
      calls. */
  ghost predicate Alike(lut: Lut, u: seq<Syscall>, v: seq<Syscall>) {
    && (forall s :: s in lut ==> multiset(u)[s] == multiset(v)[s])
    && Unknown(lut, u) == Unknown(lut, v)
  }

  /** Exactly such windows have the same bag. */
  lemma SameBag(lut: Lut, u: seq<Syscall>, v: seq<Syscall>)
    requires ValidLut(lut)
    ensures Bag(lut, u) == Bag(lut, v) <==> Alike(lut, u, v)
  {
    hide Bag, Unknown;
    BagSlots(lut, u);
    BagSlots(lut, v);
    if Alike(lut, u, v) {
      forall k | 0 <= k <= |lut| ensures Bag(lut, u)[k] == Bag(lut, v)[k] {
        if k < |lut| {
          var s := SlotOwner(lut, k);
        }
      }
    }
  }

  lemma BagSlots(lut: Lut, window: seq<Syscall>)
    requires ValidLut(lut)
    ensures |Bag(lut, window)| == |lut| + 1 && Bag(lut, window)[|lut|] == Unknown(lut, window)
    ensures forall s :: s in lut ==> Bag(lut, window)[lut[s]] == multiset(window)[s]
  {
    hide Tally, Unknown;
    TallyUnknown(lut, window);
    forall s | s in lut ensures Bag(lut, window)[lut[s]] == multiset(window)[s] {
      TallyKnown(lut, window, s);
    }
  }

  function Sum(b: seq<nat>): nat {
    if b == [] then 0 else b[0] + Sum(b[1..])
  }

  lemma {:induction false} SumBumped(b: seq<nat>, c: seq<nat>, k: nat)
    requires |b| == |c| && k < |b|
    requires forall i :: 0 <= i < |b| ==> c[i] == b[i] + if i == k then 1 else 0
    ensures Sum(c) == Sum(b) + 1
  {
    if k == 0 {
      assert b[1..] == c[1..];
    } else {
      SumBumped(b[1..], c[1..], k - 1);
    }
  }

  lemma {:induction false} SumZero(b: seq<nat>)
    requires forall i :: 0 <= i < |b| ==> b[i] == 0
    ensures Sum(b) == 0
  {
    if b != [] {
      SumZero(b[1..]);
    }
  }

  /** A bag sums to the length of its window. */
  lemma {:induction false} BagSum(lut: Lut, window: seq<Syscall>)
    requires ValidLut(lut)
    ensures Sum(Bag(lut, window)) == |window|
  {
    if window == [] {
      SumZero(Bag(lut, window));
    } else {
      BagSum(lut, window[1..]);
      SumBumped(Bag(lut, window[1..]), Bag(lut, window), Slot(lut, window[0]));
    }
  }

  lemma WithoutOne(lut: Lut, v: seq<Syscall>, j: nat, k: nat)
    requires j < |v|
    ensures multiset(v[..j] + v[j + 1..]) == multiset(v) - multiset{v[j]}
    ensures Tally(lut, v, k) == Tally(lut, v[..j] + v[j + 1..], k) + if Slot(lut, v[j]) == k then 1 else 0
  {
    assert v == v[..j] + ([v[j]] + v[j + 1..]);
    TallySplit(lut, v[..j], [v[j]] + v[j + 1..], k);
    TallySplit(lut, [v[j]], v[j + 1..], k);
    TallySplit(lut, v[..j], v[j + 1..], k);
  }

  lemma {:induction false} TallyPermuted(lut: Lut, u: seq<Syscall>, v: seq<Syscall>, k: nat)
    requires multiset(u) == multiset(v)
    ensures Tally(lut, u, k) == Tally(lut, v, k)
    decreases |u|
  {
    hide Slot, Tally;
    if u == [] {
      assert |multiset(v)| == 0;
      assert v == [];
    } else {
      assert u[0] in multiset(v);
      var j :| 0 <= j < |v| && v[j] == u[0];
      WithoutOne(lut, u, 0, k);
      WithoutOne(lut, v, j, k);
      TallyPermuted(lut, u[..0] + u[1..], v[..j] + v[j + 1..], k);
    }
  }

  /** The order of the calls in a window does not matter. */
  lemma BagPermuted(lut: Lut, u: seq<Syscall>, v: seq<Syscall>)
    requires multiset(u) == multiset(v)
    ensures Bag(lut, u) == Bag(lut, v)
  {
    forall k | 0 <= k <= |lut| ensures Bag(lut, u)[k] == Bag(lut, v)[k] {
      TallyPermuted(lut, u, v, k);
    }
  }

  // ---------------------------------------------------------------- the text form

  function Digit(d: nat): char
    requires d < 10
  {
    "0123456789"[d]
  }

  function Decimal(n: nat): string {
    if n < 10 then [Digit(n)] else Decimal(n / 10) + [Digit(n % 10)]
  }

  function Elements(b: seq<nat>): string {
    if b == [] then ""
    else if |b| == 1 then Decimal(b[0])
    else Decimal(b[0]) + ", " + Elements(b[1..])
  }

  /** str(bag) */
  function Text(b: seq<nat>): string { "[" + Elements(b) + "]" }

  lemma {:induction false} DecimalChars(n: nat)
    ensures |Decimal(n)| >= 1 && ',' !in Decimal(n)
  {
    if n >= 10 {
      DecimalChars(n / 10);
    }
  }

  lemma {:induction false} DecimalInjective(m: nat, n: nat)
    requires Decimal(m) == Decimal(n)
    ensures m == n
  {
    hide Decimal, Digit;
    DecimalParts(m);
    DecimalParts(n);
    DigitInjective(m % 10, n % 10);
    DecimalChars(m / 10);
    DecimalChars(n / 10);
    if m >= 10 {
      DecimalInjective(m / 10, n / 10);
    }
  }

  lemma DecimalParts(n: nat)
    ensures var s := Decimal(n);
            && |s| >= 1 && s[|s| - 1] == Digit(n % 10)
            && s[..|s| - 1] == if n < 10 then [] else Decimal(n / 10)
  {
  }

  lemma DigitInjective(a: nat, b: nat)
    requires a < 10 && b < 10 && Digit(a) == Digit(b)
    ensures a == b
  {
  }

  /** The number that a string of decimal digits writes. */
  function Value(s: string): nat
    requires forall k :: 0 <= k < |s| ==> '0' <= s[k] <= '9'
  {
    if s == [] then 0 else 10 * Value(s[..|s| - 1]) + (s[|s| - 1] as int - '0' as int)
  }

  /** What is written for a number is digits that read back as it, without leading zeros. */
  lemma {:induction false} DecimalReads(n: nat)
    ensures |Decimal(n)| >= 1 && forall k :: 0 <= k < |Decimal(n)| ==> '0' <= Decimal(n)[k] <= '9'
    ensures Value(Decimal(n)) == n && (n > 0 ==> Decimal(n)[0] != '0')
  {
    DigitReads(n % 10);
    if n >= 10 {
      DecimalReads(n / 10);
      assert Decimal(n)[..|Decimal(n)| - 1] == Decimal(n / 10);
    } else {
      assert Decimal(n)[..0] == [];
    }
  }

  lemma DigitReads(d: nat)
    requires d < 10
    ensures '0' <= Digit(d) <= '9' && Digit(d) as int - '0' as int == d
  {
  }

  /** The brackets, commas and blanks of a list as Python writes it. */
  lemma TextOfThree(a: nat, b: nat, c: nat)
    ensures Text([a, b, c]) == "[" + Decimal(a) + ", " + Decimal(b) + ", " + Decimal(c) + "]"
  {
    hide Decimal;
    assert [a, b, c][1..] == [b, c] && [b, c][1..] == [c];
    assert Elements([b, c]) == Decimal(b) + ", " + Decimal(c);
    assert Elements([a, b, c]) == Decimal(a) + ", " + Decimal(b) + ", " + Decimal(c);
  }

  /** Text up to the first comma is determined. */
  lemma {:induction false} CommaSplit(p: string, x: string, q: string, y: string)
    requires ',' !in p && ',' !in q && p + "," + x == q + "," + y
    ensures p == q && x == y
  {
    var s := p + "," + x;
    assert s[|p|] == ',' && s[|q|] == ',';
    assert forall k :: 0 <= k < |p| ==> s[k] == p[k] && s[k] != ',';
    assert forall k :: 0 <= k < |q| ==> s[k] == (q + "," + y)[k] == q[k] && s[k] != ',';
    assert s[..|p|] == p && s[..|q|] == q;
    assert s[|p| + 1..] == x && s[|q| + 1..] == y;
  }

  lemma {:induction false} ElementsInjective(a: seq<nat>, b: seq<nat>)
    requires |a| == |b| && Elements(a) == Elements(b)
    ensures a == b
  {
    if |a| == 1 {
      DecimalInjective(a[0], b[0]);
    } else if |a| > 1 {
      DecimalChars(a[0]);
      DecimalChars(b[0]);
      var x, y := " " + Elements(a[1..]), " " + Elements(b[1..]);
      assert Decimal(a[0]) + "," + x == Elements(a);
      assert Decimal(b[0]) + "," + y == Elements(b);
      CommaSplit(Decimal(a[0]), x, Decimal(b[0]), y);
      assert x[1..] == Elements(a[1..]) && y[1..] == Elements(b[1..]);
      DecimalInjective(a[0], b[0]);
      ElementsInjective(a[1..], b[1..]);
    }
  }

  /** The key stored for a window. */
  function Key(lut: Lut, window: seq<Syscall>): string { Text(Bag(lut, window)) }

  /** Two windows get the same stored key exactly when they agree on every known call's count and
      on the number of unknown calls. */
  lemma SameKey(lut: Lut, u: seq<Syscall>, v: seq<Syscall>)
    requires ValidLut(lut)
    ensures Key(lut, u) == Key(lut, v) <==> Alike(lut, u, v)
  {
    SameBag(lut, u, v);
    if Key(lut, u) == Key(lut, v) {
      var a, b := Bag(lut, u), Bag(lut, v);
      assert Text(a)[1..|Text(a)| - 1] == Elements(a) && Text(b)[1..|Text(b)| - 1] == Elements(b);
      ElementsInjective(a, b);
    }
  }

  // ---------------------------------------------------------------- the learner and the detector

  datatype Verdict = Constructing | Normal | Anomaly | NoVerdict

  ghost predicate DistinctRows(rows: seq<string>) {
    forall i, j :: 0 <= i < j < |rows| ==> rows[i] != rows[j]
  }

  /** The keys learned from a trace: those of the windows that another call follows. */
  ghost predicate Learned(lut: Lut, trace: seq<Syscall>, w: nat, key: string) {
    exists j :: KeyAt(lut, trace, w, j, key)
  }

  ghost predicate KeyAt(lut: Lut, trace: seq<Syscall>, w: nat, j: nat, key: string) {
    j + w < |trace| && key == Key(lut, trace[j..j + w])
  }

  /** The last `w` calls, or all of them. */
  function Tail(trace: seq<Syscall>, w: nat): seq<Syscall> {
    if |trace| <= w then trace else trace[|trace| - w..]
  }

  /** The table holds what it held before and the keys learned from the trace. */
  ghost predicate TableHolds(rows: seq<string>, before: seq<string>, lut: Lut, trace: seq<Syscall>, w: nat) {
    forall key :: key in rows <==> key in before || Learned(lut, trace, w, key)
  }

  class Creator {
    const windowSize: nat
    const lut: Lut
    var window: seq<Syscall>
    var rows: seq<string>     // the BoSC table

    constructor (windowSize: nat, lut: Lut, rows: seq<string>)
      ensures this.windowSize == windowSize && this.lut == lut && this.rows == rows && window == []
    {
      this.windowSize, this.lut, this.rows, window := windowSize, lut, rows, [];
    }

    /** create_BoSC */
    method CreateBosc() returns (key: string)
      requires ValidLut(lut)
      ensures key == Key(lut, window)
    {
      var bag := new nat[|lut| + 1](_ => 0);
      var i := 0;
      while i < |window|
        invariant 0 <= i <= |window|
        invariant forall k :: 0 <= k <= |lut| ==> bag[k] == Tally(lut, window[..i], k)
      {
        assert window[..i + 1] == window[..i] + [window[i]];
        forall k: nat ensures Tally(lut, window[..i + 1], k) ==
                              Tally(lut, window[..i], k) + if Slot(lut, window[i]) == k then 1 else 0 {
          TallySplit(lut, window[..i], [window[i]], k);
        }
        var index := if window[i] in lut then lut[window[i]] else |lut|;
        bag[index] := bag[index] + 1;
        i := i + 1;
      }
      assert window[..i] == window;
      assert bag[..] == Bag(lut, window);
      return Text(bag[..]);
    }

    /** insert_bag__if_nonexistent */
    method InsertIfNonexistent(key: string)
      requires DistinctRows(rows)
      modifies this`rows
      ensures DistinctRows(rows)
      ensures rows == if key in old(rows) then old(rows) else old(rows) + [key]
    {
      if key !in rows {
        rows := rows + [key];
      }
    }

    /** append_BoSC. The lookup runs a query whose rows are never fetched, so what decides about a
        full window is not the table but whether the query raised an exception (`raised`), as it
        does without a table or when the connection belongs to another thread. */
    method AppendBosc(s: Syscall, raised: bool) returns (verdict: Verdict, formed: Option<string>)
      requires ValidLut(lut)
      modifies this`window
      ensures |old(window)| == windowSize ==>
                && window == (old(window) + [s])[if windowSize == 0 then 0 else 1..]
                && formed == Some(Key(lut, old(window))) && verdict == if raised then Anomaly else Normal
      ensures |old(window)| < windowSize ==> window == old(window) + [s] && formed == None && verdict == Constructing
      ensures |old(window)| > windowSize ==> window == old(window) && formed == None && verdict == NoVerdict
    {
      if |window| == windowSize {
        var bag := CreateBosc();
        window := (if window == [] then [] else window[1..]) + [s];
        return if raised then Anomaly else Normal, Some(bag);
      } else if |window| < windowSize {
        window := window + [s];
        return Constructing, None;
      }
      return NoVerdict, None;
    }

    /** create_learning_db over the calls of a trace. */
    method CreateLearningDb(trace: seq<Syscall>)
      requires ValidLut(lut) && windowSize >= 1 && window == [] && DistinctRows(rows)
      modifies this
      ensures DistinctRows(rows)
      ensures TableHolds(rows, old(rows), lut, trace, windowSize)
    {
      hide Key, ValidLut, TableHolds, Tail, DistinctRows;
      TableStart(rows, lut, trace, windowSize);
      var i := 0;
      while i < |trace|
        invariant 0 <= i <= |trace| && DistinctRows(rows)
        invariant window == Tail(trace[..i], windowSize)
        invariant TableHolds(rows, old(rows), lut, trace[..i], windowSize)
      {
        TableStep(rows, old(rows), lut, trace, i, windowSize);
        TailStep(trace, i, windowSize);
        if |window| == windowSize {
          var bag := CreateBosc();
          window := window[1..] + [trace[i]];
          InsertIfNonexistent(bag);
        } else {
          window := window + [trace[i]];
        }
        i := i + 1;
      }
      assert trace[..i] == trace;
    }
  }

  lemma TailStep(trace: seq<Syscall>, i: nat, w: nat)
    requires i < |trace| && w >= 1
    ensures |Tail(trace[..i], w)| == (if i <= w then i else w)
    ensures Tail(trace[..i + 1], w) ==
            if i < w then Tail(trace[..i], w) + [trace[i]] else Tail(trace[..i], w)[1..] + [trace[i]]
  {
    hide Tail;
    TailWindow(trace, i, w);
    TailWindow(trace, i + 1, w);
    if i < w {
      assert trace[..i + 1] == trace[..i] + [trace[i]];
    } else {
      assert trace[i - w..i][1..] == trace[i + 1 - w..i];
      assert trace[i + 1 - w..i + 1] == trace[i + 1 - w..i] + [trace[i]];
    }
  }

  lemma TailWindow(trace: seq<Syscall>, i: nat, w: nat)
    requires i <= |trace|
    ensures Tail(trace[..i], w) == if i <= w then trace[..i] else trace[i - w..i]
  {
    if i > w {
      assert trace[..i][i - w..] == trace[i - w..i];
    }
  }

  lemma LearnedHere(lut: Lut, trace: seq<Syscall>, i: nat, w: nat, key: string)
    requires w <= i < |trace| && key == Key(lut, Tail(trace[..i], w))
    ensures Learned(lut, trace[..i + 1], w, key)
  {
    hide Key, Tail;
    TailWindow(trace, i, w);
    var j := i - w;
    assert trace[..i + 1][j..j + w] == trace[j..i] == Tail(trace[..i], w);
    assert KeyAt(lut, trace[..i + 1], w, j, key);
  }

  lemma LearnedStep(lut: Lut, trace: seq<Syscall>, i: nat, w: nat)
    requires i < |trace| && w >= 1
    ensures forall key :: Learned(lut, trace[..i + 1], w, key) <==>
              Learned(lut, trace[..i], w, key) || (i >= w && key == Key(lut, Tail(trace[..i], w)))
  {
    hide Key, Tail;
    forall key
      ensures Learned(lut, trace[..i + 1], w, key) <==>
                Learned(lut, trace[..i], w, key) || (i >= w && key == Key(lut, Tail(trace[..i], w)))
    {
      if Learned(lut, trace[..i + 1], w, key) {
        var j: nat :| KeyAt(lut, trace[..i + 1], w, j, key);
        if j + w == i {
          TailWindow(trace, i, w);
          assert trace[..i + 1][j..j + w] == trace[j..i] == Tail(trace[..i], w);
        } else {
          assert trace[..i + 1][j..j + w] == trace[..i][j..j + w];
          assert KeyAt(lut, trace[..i], w, j, key);
        }
      }
      if Learned(lut, trace[..i], w, key) {
        var j: nat :| KeyAt(lut, trace[..i], w, j, key);
        assert trace[..i + 1][j..j + w] == trace[..i][j..j + w];
        assert KeyAt(lut, trace[..i + 1], w, j, key);
      }
      if i >= w && key == Key(lut, Tail(trace[..i], w)) {
        LearnedHere(lut, trace, i, w, key);
      }
    }
  }

  lemma TableStart(rows: seq<string>, lut: Lut, trace: seq<Syscall>, w: nat)
    ensures TableHolds(rows, rows, lut, trace[..0], w) && Tail(trace[..0], w) == []
  {
  }

  lemma TableStep(rows: seq<string>, before: seq<string>, lut: Lut, trace: seq<Syscall>, i: nat, w: nat)
    requires i < |trace| && w >= 1 && TableHolds(rows, before, lut, trace[..i], w)
    ensures i < w ==> TableHolds(rows, before, lut, trace[..i + 1], w)
    ensures i >= w ==> var key := Key(lut, Tail(trace[..i], w));
                       TableHolds(if key in rows then rows else rows + [key], before, lut, trace[..i + 1], w)
  {
    hide Key, Learned, Tail;
    LearnedStep(lut, trace, i, w);
  }

  function CountTrue(bs: seq<bool>): nat {
    if bs == [] then 0 else CountTrue(bs[..|bs| - 1]) + if bs[|bs| - 1] then 1 else 0
  }

  /** The queries that a trace of |raised| calls makes: one for each call after the first `w`. */
  function Queries(raised: seq<bool>, w: nat): seq<bool> {
    if |raised| <= w then [] else raised[w..]
  }

  lemma QueriesStep(raised: seq<bool>, i: nat, w: nat)
    requires i < |raised|
    ensures Queries(raised[..i + 1], w) == Queries(raised[..i], w) + if i < w then [] else [raised[i]]
    ensures CountTrue(Queries(raised[..i + 1], w)) ==
            CountTrue(Queries(raised[..i], w)) + if i >= w && raised[i] then 1 else 0
  {
    if i >= w {
      assert raised[..i + 1][w..] == raised[..i][w..] + [raised[i]];
      assert Queries(raised[..i], w) == raised[..i][w..];
    }
  }

  /** Replaying a trace through the detector from an empty window forms the key of each window that
      another call follows, so only keys learned from that trace; and it reports as many anomalies
      as queries raised, whatever the table holds. */
  method Replay(c: Creator, trace: seq<Syscall>, raised: seq<bool>) returns (formed: seq<string>, anomalies: nat)
    requires ValidLut(c.lut) && c.windowSize >= 1 && c.window == [] && |raised| == |trace|
    modifies c`window
    ensures |formed| == if |trace| <= c.windowSize then 0 else |trace| - c.windowSize
    ensures forall j :: 0 <= j < |formed| ==> KeyAt(c.lut, trace, c.windowSize, j, formed[j])
    ensures forall j :: 0 <= j < |formed| ==> Learned(c.lut, trace, c.windowSize, formed[j])
    ensures anomalies == CountTrue(Queries(raised, c.windowSize))
  {
    hide Key, ValidLut, Tail, CountTrue, Queries;
    var w := c.windowSize;
    formed, anomalies := [], 0;
    ReplayStart(trace, raised, w);
    var i := 0;
    while i < |trace|
      invariant 0 <= i <= |trace| && c.window == Tail(trace[..i], w)
      invariant |formed| == if i <= w then 0 else i - w
      invariant forall j :: 0 <= j < |formed| ==> KeyAt(c.lut, trace, w, j, formed[j])
      invariant anomalies == CountTrue(Queries(raised[..i], w))
    {
      TailStep(trace, i, w);
      TailWindow(trace, i, w);
      QueriesStep(raised, i, w);
      assert Tail(trace[..i], w) + [trace[i]] != [];
      assert i >= w ==> (Tail(trace[..i], w) + [trace[i]])[1..] == Tail(trace[..i], w)[1..] + [trace[i]];
      var verdict, key := c.AppendBosc(trace[i], raised[i]);
      if key.Some? {
        assert i - w + w == i;
        assert KeyAt(c.lut, trace, w, i - w, key.value);
        formed := formed + [key.value];
      }
      if verdict == Anomaly {
        anomalies := anomalies + 1;
      }
      i := i + 1;
    }
    assert raised[..i] == raised;
  }

  lemma ReplayStart(trace: seq<Syscall>, raised: seq<bool>, w: nat)
    ensures Tail(trace[..0], w) == [] && CountTrue(Queries(raised[..0], w)) == 0
  {
  }

  // ---------------------------------------------------------------- a detector without the table

  lemma {:induction false} NoneKnown(window: seq<Syscall>)
    ensures Tally(map[], window, 0) == |window|
  {
    if window != [] {
      NoneKnown(window[1..]);
    }
  }

  /** A detector that has not loaded the lookup table keys every window by its length alone. */
  lemma KeyWithoutTable(window: seq<Syscall>)
    ensures Key(map[], window) == "[" + Decimal(|window|) + "]"
  {
    hide Decimal, Tally;
    NoneKnown(window);
    assert Bag(map[], window) == [|window|];
  }

  lemma SeveralElements(b: seq<nat>)
    requires |b| >= 2
    ensures ',' in Text(b)
  {
    hide Decimal;
    var s := Text(b);
    assert s[1 + |Decimal(b[0])|] == ',';
  }

  /** Such a key has been learned exactly when the learner had no table either. */
  lemma LearnedWithoutTable(lut: Lut, trace: seq<Syscall>, w: nat, window: seq<Syscall>)
    requires |window| == w
    ensures Learned(lut, trace, w, Key(map[], window)) <==> lut == map[] && |trace| > w
  {
    hide Key, Text, Decimal, Tally;
    var key := Key(map[], window);
    KeyWithoutTable(window);
    DecimalChars(w);
    if lut == map[] {
      if |trace| > w {
        KeyWithoutTable(trace[0..0 + w]);
        assert KeyAt(lut, trace, w, 0, key);
      }
    } else {
      forall j: nat ensures !KeyAt(lut, trace, w, j, key) {
        if j + w < |trace| {
          ManyElements(lut, trace[j..j + w]);
        }
      }
    }
  }

  lemma ManyElements(lut: Lut, window: seq<Syscall>)
    requires lut != map[]
    ensures ',' in Key(lut, window)
  {
    hide Text;
    assert |lut| >= 1;
    SeveralElements(Bag(lut, window));
  }

  // ---------------------------------------------------------------- names spelled differently

  lemma {:induction false} AllUnknown(lut: Lut, window: seq<Syscall>)
    ensures Unknown(lut, window) <= |window|
    ensures Unknown(lut, window) == |window| <==> forall k :: 0 <= k < |window| ==> window[k] !in lut
  {
    if window != [] {
      AllUnknown(lut, window[1..]);
      var rest := window[1..];
      if forall k :: 0 <= k < |rest| ==> rest[k] !in lut {
        forall k | 1 <= k < |window| ensures window[k] !in lut {
          assert window[k] == rest[k - 1];
        }
      } else {
        var k :| 0 <= k < |rest| && rest[k] in lut;
        assert window[k + 1] in lut;
      }
    }
  }

  /** A learned window that holds no known call. */
  ghost predicate StrangersAt(lut: Lut, trace: seq<Syscall>, w: nat, i: nat) {
    i + w < |trace| && Unknown(lut, trace[i..i + w]) == w
  }

  lemma AlikeStrangers(lut: Lut, u: seq<Syscall>, v: seq<Syscall>)
    requires |u| == |v| == Unknown(lut, u)
    ensures Alike(lut, u, v) <==> Unknown(lut, v) == |v|
  {
    hide Unknown;
    AllUnknown(lut, u);
    AllUnknown(lut, v);
    if Unknown(lut, v) == |v| {
      forall s | s in lut ensures multiset(u)[s] == 0 && multiset(v)[s] == 0 {
        assert s !in u && s !in v;
      }
    }
  }

  /** A window of which the table knows no call has a learned key exactly when some learned window
      holds no known call either. */
  lemma StrangersLearned(lut: Lut, trace: seq<Syscall>, w: nat, u: seq<Syscall>)
    requires ValidLut(lut) && |u| == w == Unknown(lut, u)
    ensures Learned(lut, trace, w, Key(lut, u)) <==> exists i: nat :: StrangersAt(lut, trace, w, i)
  {
    hide Key, ValidLut, Unknown, Alike;
    forall i: nat ensures KeyAt(lut, trace, w, i, Key(lut, u)) <==> StrangersAt(lut, trace, w, i) {
      if i + w < |trace| {
        SameKey(lut, u, trace[i..i + w]);
        AlikeStrangers(lut, u, trace[i..i + w]);
      }
    }
  }

  /** There is none when the table lists every call of the trace, as the one made from it does. */
  lemma NoStrangers(lut: Lut, trace: seq<Syscall>, w: nat, i: nat)
    requires w >= 1 && forall k :: 0 <= k < |trace| ==> trace[k] in lut
    ensures !StrangersAt(lut, trace, w, i)
  {
    hide Unknown;
    if i + w < |trace| {
      AllUnknown(lut, trace[i..i + w]);
      assert trace[i..i + w][0] == trace[i];
    }
  }
}
