/** The behaviour of the selector of src/wrr.rs on the servers A:5, B:1, C:1,
    computed from the model of `next` (with `current_weight` as an `int`). */
module WrrTrace {
  import opened Wrr

  /** The servers A with weight 5, B with weight 1 and C with weight 1, in that order. */
  predicate IsSample(servers: seq<Server>)
  {
    |servers| == 3
    && servers[0] == Server("A", 5) && servers[1] == Server("B", 1) && servers[2] == Server("C", 1)
  }

  /** The seven results that repeat from the third call on. */
  const Cycle: seq<string> := ["A", "A", "A", "A", "A", "B", "C"]

  /** The selector state before result `Cycle[r]`. */
  function CycleState(r: nat): Sched
    requires r < 7
  {
    [Sched(1, 2), Sched(5, 0), Sched(4, 0), Sched(3, 0), Sched(2, 0), Sched(1, 0), Sched(1, 1)][r]
  }

  /** The position after `r` in `Cycle`, wrapping around. */
  function NextPos(r: nat): nat
  {
    if r < 6 then r + 1 else 0
  }

  lemma SampleConfig(servers: seq<Server>)
    requires IsSample(servers)
    ensures MaxOf(servers) == 5 && GcdOf(servers) == 1
  {
    assert servers[..3] == servers;
    assert servers[..2][..1] == servers[..1];
    assert servers[..1][..0] == [];
    assert Gcd(0, 5) == 5 && Gcd(5, 1) == 1 && Gcd(1, 1) == 1;
  }

  /** One probe on the sample servers: maximum 5, gcd 1. */
  lemma SampleAdvance(servers: seq<Server>, w: int, i: nat)
    requires IsSample(servers) && 0 <= w <= 5 && i < 3
    ensures Inv(servers, Sched(w, i)) && !ResetsToZero(servers, Sched(w, i))
    ensures Advance(servers, Sched(w, i))
         == if i < 2 then Sched(w, i + 1) else if w - 1 <= 0 then Sched(5, 0) else Sched(w - 1, 0)
  {
    SampleConfig(servers);
  }

  /** With threshold `w` above 1 at index 0, B and C fall short and A is chosen
      at the lowered threshold. */
  lemma SampleLapForA(servers: seq<Server>, w: int)
    requires IsSample(servers) && 2 <= w <= 5
    ensures Inv(servers, Sched(w, 0))
    ensures NextFrom(servers, Sched(w, 0)) == (Sched(w - 1, 0), "A")
  {
    SampleAdvance(servers, w, 0);
    ProbeRejects(servers, Sched(w, 0));
    SampleAdvance(servers, w, 1);
    ProbeRejects(servers, Sched(w, 1));
    SampleAdvance(servers, w, 2);
    ProbeAccepts(servers, Sched(w, 2));
  }

  /** A probe on the sample servers whose server reaches the threshold. */
  lemma SampleAccept(servers: seq<Server>, w: int, i: nat)
    requires IsSample(servers) && 0 <= w <= 5 && i < 3
    requires var t := Advance(servers, Sched(w, i)); servers[t.currentIndex].weight >= t.currentWeight
    ensures Inv(servers, Sched(w, i))
    ensures var t := Advance(servers, Sched(w, i)); NextFrom(servers, Sched(w, i)) == (t, servers[t.currentIndex].addr)
  {
    SampleAdvance(servers, w, i);
    ProbeAccepts(servers, Sched(w, i));
  }

  /** The sample's first lap: B, then C, then the reset to threshold 5 picks A. */
  lemma FirstLap(servers: seq<Server>)
    requires IsSample(servers)
    ensures Inv(servers, Sched(0, 0)) && Inv(servers, Sched(0, 1)) && Inv(servers, Sched(0, 2))
    ensures NextFrom(servers, Sched(0, 0)) == (Sched(0, 1), "B")
    ensures NextFrom(servers, Sched(0, 1)) == (Sched(0, 2), "C")
    ensures NextFrom(servers, Sched(0, 2)) == (CycleState(1), "A")
  {
    SampleAccept(servers, 0, 0);
    SampleAccept(servers, 0, 1);
    SampleAccept(servers, 0, 2);
  }

  /** Each cycle state leads to the next one with the matching result. */
  lemma CycleStep(servers: seq<Server>, r: nat)
    requires IsSample(servers) && r < 7
    ensures Inv(servers, CycleState(r))
    ensures NextFrom(servers, CycleState(r)) == (CycleState(NextPos(r)), Cycle[r])
  {
    var s := CycleState(r);
    SampleAdvance(servers, s.currentWeight, s.currentIndex);
    if 1 <= r <= 4 {
      SampleLapForA(servers, 6 - r);
    } else {
      SampleAccept(servers, s.currentWeight, s.currentIndex);
    }
  }

  lemma SliceStep(r: nat, n: nat)
    requires r < 7 && 0 < n <= 7
    ensures (Cycle + Cycle)[r..r + n] == [Cycle[r]] + (Cycle + Cycle)[NextPos(r)..NextPos(r) + n - 1]
  {
    if r == 6 {
      assert (Cycle + Cycle)[0..n - 1] == (Cycle + Cycle)[7..7 + n - 1];
    }
    assert (Cycle + Cycle)[r..r + n] == [Cycle[r]] + (Cycle + Cycle)[r + 1..r + n];
  }

  /** From the state before `Cycle[r]`, up to seven results continue around `Cycle`. */
  lemma {:induction false} RunAroundCycle(servers: seq<Server>, r: nat, n: nat)
    requires IsSample(servers) && r < 7 && n <= 7
    ensures Inv(servers, CycleState(r))
    ensures Run(servers, CycleState(r), n) == (Cycle + Cycle)[r..r + n]
    decreases n
  {
    CycleStep(servers, r);
    if n > 0 {
      RunAroundCycle(servers, NextPos(r), n - 1);
      RunStep(servers, CycleState(r), n - 1);
      SliceStep(r, n);
    }
  }

  /** Seven calls from the state before `Cycle[r]` give `Cycle` rotated by `r`. */
  lemma CycleRotation(servers: seq<Server>, r: nat)
    requires IsSample(servers) && r < 7
    ensures Inv(servers, CycleState(r))
    ensures Run(servers, CycleState(r), 7) == Cycle[r..] + Cycle[..r]
  {
    RunAroundCycle(servers, r, 7);
    assert (Cycle + Cycle)[r..r + 7] == Cycle[r..] + Cycle[..r];
  }

  lemma PosStep(m: nat)
    requires m >= 3
    ensures (m - 2) % 7 == NextPos((m - 3) % 7)
  {
    var q, a := (m - 3) / 7, (m - 3) % 7;
    assert m - 3 == 7 * q + a;
    if a < 6 {
      assert m - 2 == 7 * q + (a + 1);
    } else {
      assert m - 2 == 7 * (q + 1) + 0;
    }
  }

  /** After the first lap the selector walks round the seven cycle states. */
  lemma {:induction false} AfterFirstLap(servers: seq<Server>, m: nat)
    requires IsSample(servers) && m >= 3
    ensures Inv(servers, Sched(0, 0))
    ensures After(servers, Sched(0, 0), m) == CycleState((m - 2) % 7)
  {
    FirstLap(servers);
    if m == 3 {
      assert After(servers, Sched(0, 0), 3) == After(servers, Sched(0, 1), 2);
      assert After(servers, Sched(0, 1), 2) == After(servers, Sched(0, 2), 1);
    } else {
      AfterFirstLap(servers, m - 1);
      AfterStep(servers, Sched(0, 0), m - 1);
      CycleStep(servers, (m - 3) % 7);
      PosStep(m);
    }
  }

  lemma SliceCons<T>(s: seq<T>, k: nat)
    requires k < |s|
    ensures s[k..] == [s[k]] + s[k + 1..]
  {
  }

  /** From the state before call `k` of the first lap (`k <= 2`), the rest of
      the first lap comes first, then the cycle from its second state. */
  lemma {:induction false} FirstLapThenCycle(servers: seq<Server>, k: nat, n: nat)
    requires IsSample(servers) && k <= 2
    ensures Inv(servers, Sched(0, k))
    ensures Run(servers, Sched(0, k), 3 - k + n) == ["B", "C", "A"][k..] + Run(servers, CycleState(1), n)
    decreases 2 - k
  {
    FirstLap(servers);
    RunStep(servers, Sched(0, k), 2 - k + n);
    if k < 2 {
      assert NextFrom(servers, Sched(0, k)) == (Sched(0, k + 1), ["B", "C", "A"][k]);
      FirstLapThenCycle(servers, k + 1, n);
      SliceCons(["B", "C", "A"], k);
    } else {
      assert ["B", "C", "A"][2..] == ["A"];
    }
  }

  /** The rest of the first lap from call `k`, followed by the cycle from its
      second state up to seven results, is `Cycle` rotated. */
  lemma FirstLapSeq(k: nat)
    requires k <= 2
    ensures var r := if k < 2 then 5 + k else 0; ["B", "C", "A"][k..] + Cycle[1..5 + k] == Cycle[r..] + Cycle[..r]
  {
    if k == 0 {
      assert Cycle[5..] == ["B", "C"] && Cycle[..5] == ["A", "A", "A", "A", "A"];
      assert Cycle[1..5] == ["A", "A", "A", "A"];
    } else if k == 1 {
      assert Cycle[6..] == ["C"] && Cycle[..6] == ["A", "A", "A", "A", "A", "B"];
      assert Cycle[1..6] == ["A", "A", "A", "A", "B"];
    } else {
      assert Cycle[1..7] == ["A", "A", "A", "A", "B", "C"];
      assert Cycle[0..] + Cycle[..0] == Cycle;
    }
  }

  lemma SliceOfDouble<T>(s: seq<T>, i: nat, j: nat)
    requires i <= j <= |s|
    ensures (s + s)[i..j] == s[i..j]
  {
  }

  lemma RotationMultiset<T>(s: seq<T>, r: nat)
    requires r <= |s|
    ensures multiset(s[r..] + s[..r]) == multiset(s)
  {
    assert s == s[..r] + s[r..];
  }

  lemma TenSeq()
    ensures ["B", "C", "A"][0..] + (Cycle[1..] + Cycle[..1]) == ["B", "C", "A", "A", "A", "A", "A", "B", "C", "A"]
  {
    assert Cycle[1..] == ["A", "A", "A", "A", "B", "C"] && Cycle[..1] == ["A"];
  }

  /** The first ten calls from a fresh selector return B, C, A, A, A, A, A, B, C, A. */
  lemma FirstTenCalls(servers: seq<Server>)
    requires IsSample(servers)
    ensures Inv(servers, Sched(0, 0))
    ensures Run(servers, Sched(0, 0), 10) == ["B", "C", "A", "A", "A", "A", "A", "B", "C", "A"]
  {
    FirstLapThenCycle(servers, 0, 7);
    CycleRotation(servers, 1);
    TenSeq();
  }

  /** The seven calls from each state within the first lap form `Cycle` rotated. */
  lemma FirstLapWindow(servers: seq<Server>, k: nat)
    requires IsSample(servers) && k <= 2
    ensures Inv(servers, Sched(0, k))
    ensures var r := if k < 2 then 5 + k else 0; Run(servers, Sched(0, k), 7) == Cycle[r..] + Cycle[..r]
  {
    FirstLapThenCycle(servers, k, 4 + k);
    RunAroundCycle(servers, 1, 4 + k);
    SliceOfDouble(Cycle, 1, 5 + k);
    FirstLapSeq(k);
  }

  lemma ShiftMod(m: nat)
    ensures m >= 3 ==> (m - 2) % 7 == (m + 5) % 7
    ensures m < 3 ==> (m + 5) % 7 == if m < 2 then 5 + m else 0
  {
    if m >= 3 {
      var q, a := (m - 2) / 7, (m - 2) % 7;
      assert m + 5 == 7 * (q + 1) + a;
    }
  }

  /** Every seven consecutive calls of a fresh selector (calls `m` to `m + 6`,
      for every `m`) are `Cycle` rotated, so they return A five times and B and
      C once each. */
  lemma EveryWindowOfSeven(servers: seq<Server>, m: nat)
    requires IsSample(servers)
    ensures Inv(servers, Sched(0, 0))
    ensures var r := (m + 5) % 7; Run(servers, Sched(0, 0), m + 7)[m..] == Cycle[r..] + Cycle[..r]
    ensures multiset(Run(servers, Sched(0, 0), m + 7)[m..]) == multiset(Cycle)
  {
    FirstLap(servers);
    var start := Sched(0, 0);
    RunSplit(servers, start, m, 7);
    ShiftMod(m);
    assert Run(servers, start, m + 7)[m..] == Run(servers, After(servers, start, m), 7);
    if m >= 3 {
      AfterFirstLap(servers, m);
      CycleRotation(servers, (m - 2) % 7);
    } else {
      assert After(servers, start, 1) == Sched(0, 1);
      assert After(servers, start, 2) == Sched(0, 2);
      FirstLapWindow(servers, m);
    }
    RotationMultiset(Cycle, (m + 5) % 7);
  }
}
