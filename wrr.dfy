/** The interleaved weighted round-robin selector of src/wrr.rs.

    The source keeps `current_weight` as a `usize`. It starts at 0, so the
    first time the index wraps to 0 the subtraction `current_weight -
    gcd_weight` goes below zero (a panic in a debug build, a wrap-around to a
    huge threshold in a release build). This model keeps `current_weight` as
    an `int`, which is what the `<= 0` test evidently intends; `UsizeSub` and
    `FirstWrapUnderflows` state what the `usize` arithmetic does instead. */
module Wrr {
  import opened Results

  datatype Server = Server(addr: string, weight: nat)

  /** The part of the selector `next` updates. */
  datatype Sched = Sched(currentWeight: int, currentIndex: nat)

  // ---------------------------------------------------------------- gcd

  /** `gcd` of src/wrr.rs: Euclid's algorithm. */
  function Gcd(a: nat, b: nat): nat
    decreases b
  {
    if b == 0 then a else Gcd(b, a % b)
  }

  /** `d` divides `n`; 0 divides only 0. */
  predicate Divides(d: nat, n: nat)
  {
    if d == 0 then n == 0 else n % d == 0
  }

  lemma MultipleMod(g: nat, m: int)
    requires g > 0
    ensures (g * m) % g == 0
  {
    var t := g * m;
    var d := m - t / g;
    assert t == g * (t / g) + t % g;
    assert g * d == t % g;
  }

  lemma LinearCombination(g: nat, x: int, b: int, y: int, c: int)
    requires g > 0 && b % g == 0 && c % g == 0
    ensures (x * b + y * c) % g == 0
  {
    var p, q := b / g, c / g;
    assert b == g * p && c == g * q;
    assert x * b == g * (x * p) by {
      assert x * (g * p) == g * (x * p);
    }
    assert y * c == g * (y * q) by {
      assert y * (g * q) == g * (y * q);
    }
    assert x * b + y * c == g * (x * p + y * q);
    MultipleMod(g, x * p + y * q);
  }

  lemma DividesTransitive(d: nat, m: nat, n: nat)
    requires Divides(d, m) && Divides(m, n)
    ensures Divides(d, n)
  {
    if d > 0 && m > 0 {
      LinearCombination(d, n / m, m, 0, 0);
      assert n == (n / m) * m;
    }
  }

  /** `gcd(a, b)` divides both arguments. */
  lemma {:induction false} GcdDivides(a: nat, b: nat)
    ensures Divides(Gcd(a, b), a) && Divides(Gcd(a, b), b)
    decreases b
  {
    if b != 0 {
      GcdDivides(b, a % b);
      var g := Gcd(a, b);
      assert g == Gcd(b, a % b);
      assert Divides(g, b);
      assert g > 0;
      LinearCombination(g, a / b, b, 1, a % b);
      assert a == (a / b) * b + 1 * (a % b);
    }
  }

  /** Every common divisor of `a` and `b` divides `gcd(a, b)`. */
  lemma {:induction false} GcdGreatest(a: nat, b: nat, d: nat)
    requires Divides(d, a) && Divides(d, b)
    ensures Divides(d, Gcd(a, b))
    decreases b
  {
    if b != 0 {
      assert d > 0;
      LinearCombination(d, 1, a, -(a / b), b);
      assert a % b == 1 * a + -(a / b) * b;
      GcdGreatest(b, a % b, d);
    }
  }

  /** `gcd(a, b)` is 0 exactly when both arguments are 0. */
  lemma {:induction false} GcdZero(a: nat, b: nat)
    ensures Gcd(a, b) == 0 <==> a == 0 && b == 0
    decreases b
  {
    if b != 0 {
      GcdZero(b, a % b);
    }
  }

  lemma GcdIdentities(a: nat, b: nat)
    ensures Gcd(a, 0) == a && Gcd(0, b) == b
  {
  }

  // ------------------------------------------- what `new` computes

  /** The running maximum of `new`'s loop over the servers in order. */
  function MaxOf(servers: seq<Server>): (m: nat)
    ensures forall i | 0 <= i < |servers| :: servers[i].weight <= m
    ensures servers == [] ==> m == 0
    ensures servers != [] ==> exists i | 0 <= i < |servers| :: servers[i].weight == m
  {
    if servers == [] then 0
    else
      var init, last := servers[..|servers| - 1], servers[|servers| - 1];
      var m := MaxOf(init);
      assert forall i | 0 <= i < |init| :: init[i] == servers[i];
      if last.weight > m then last.weight else m
  }

  /** The running gcd of `new`'s loop over the servers in order, starting from 0. */
  function GcdOf(servers: seq<Server>): nat
  {
    if servers == [] then 0
    else Gcd(GcdOf(servers[..|servers| - 1]), servers[|servers| - 1].weight)
  }

  /** The gcd `new` computes divides every weight. */
  lemma {:induction false} GcdOfDivides(servers: seq<Server>)
    ensures forall i | 0 <= i < |servers| :: Divides(GcdOf(servers), servers[i].weight)
  {
    if servers != [] {
      var init, last := servers[..|servers| - 1], servers[|servers| - 1];
      GcdOfDivides(init);
      GcdDivides(GcdOf(init), last.weight);
      forall i | 0 <= i < |init|
        ensures Divides(GcdOf(servers), servers[i].weight)
      {
        assert init[i] == servers[i];
        DividesTransitive(GcdOf(servers), GcdOf(init), servers[i].weight);
      }
    }
  }

  /** Every common divisor of the weights divides the gcd `new` computes. */
  lemma {:induction false} GcdOfGreatest(servers: seq<Server>, d: nat)
    requires forall i | 0 <= i < |servers| :: Divides(d, servers[i].weight)
    ensures Divides(d, GcdOf(servers))
  {
    if servers != [] {
      var init := servers[..|servers| - 1];
      assert forall i | 0 <= i < |init| :: init[i] == servers[i];
      GcdOfGreatest(init, d);
      GcdGreatest(GcdOf(init), servers[|servers| - 1].weight, d);
    }
  }

  /** The gcd `new` computes is 0 exactly when every weight is 0. */
  lemma {:induction false} GcdOfZero(servers: seq<Server>)
    ensures GcdOf(servers) == 0 <==> forall i | 0 <= i < |servers| :: servers[i].weight == 0
  {
    if servers != [] {
      var init, last := servers[..|servers| - 1], servers[|servers| - 1];
      GcdOfZero(init);
      GcdZero(GcdOf(init), last.weight);
      assert forall i | 0 <= i < |init| :: init[i] == servers[i];
    }
  }

  /** The maximum is 0 exactly when every weight is 0, so then the gcd is 0 too. */
  lemma MaxZeroIffGcdZero(servers: seq<Server>)
    ensures MaxOf(servers) == 0 <==> GcdOf(servers) == 0
  {
    GcdOfZero(servers);
  }

  /** An index whose server carries the maximum weight. */
  function MaxIndex(servers: seq<Server>): (k: nat)
    requires |servers| > 0
    ensures k < |servers| && servers[k].weight == MaxOf(servers)
  {
    var init := servers[..|servers| - 1];
    if |servers| == 1 || servers[|servers| - 1].weight > MaxOf(init) then |servers| - 1
    else
      var k := MaxIndex(init);
      assert init[k] == servers[k];
      k
  }

  // --------------------------------------------- what `next` computes

  /** The selector invariant: a valid index and `0 <= current_weight <= max_weight`. */
  predicate Inv(servers: seq<Server>, s: Sched)
  {
    |servers| > 0 && s.currentIndex < |servers| && 0 <= s.currentWeight <= MaxOf(servers)
  }

  /** Index steps from `i` forward (with wrap-around) until `k` is reached. */
  function Dist(n: nat, i: nat, k: nat): nat
    requires i < n
  {
    if i < k then k - i else n + k - i
  }

  lemma StepIndex(i: nat, n: nat)
    requires i < n
    ensures (i + 1) % n == if i + 1 < n then i + 1 else 0
  {
  }

  /** Whether the probe after state `s` takes the reset branch with every
      weight 0, the one way `next` returns without choosing a server. */
  predicate ResetsToZero(servers: seq<Server>, s: Sched)
    requires |servers| > 0
  {
    (s.currentIndex + 1) % |servers| == 0
    && s.currentWeight - GcdOf(servers) <= 0
    && MaxOf(servers) == 0
  }

  /** One probe of `next`'s loop: step the index and, at a wrap to 0, lower
      the threshold by the gcd, resetting it to the maximum once it is <= 0. */
  function Advance(servers: seq<Server>, s: Sched): (t: Sched)
    requires Inv(servers, s)
    ensures Inv(servers, t)
    ensures t.currentIndex == if s.currentIndex + 1 < |servers| then s.currentIndex + 1 else 0
  {
    StepIndex(s.currentIndex, |servers|);
    var i := (s.currentIndex + 1) % |servers|;
    var lowered := s.currentWeight - GcdOf(servers);
    if i != 0 then Sched(s.currentWeight, i)
    else if lowered <= 0 then Sched(MaxOf(servers), i)
    else Sched(lowered, i)
  }

  /** One call of `next`: the new selector state and the returned address.
      Either a server was chosen whose weight reaches the new threshold, or all
      weights are 0 and the reset branch returned the empty string. */
  function NextFrom(servers: seq<Server>, s: Sched): (r: (Sched, string))
    requires Inv(servers, s)
    ensures Inv(servers, r.0)
    ensures || (r.1 == servers[r.0.currentIndex].addr
                && servers[r.0.currentIndex].weight >= r.0.currentWeight)
            || (r.1 == "" && MaxOf(servers) == 0 && r.0 == Sched(0, 0))
    decreases Dist(|servers|, s.currentIndex, MaxIndex(servers))
  {
    if ResetsToZero(servers, s) then (Sched(0, 0), "")
    else
      var t := Advance(servers, s);
      if servers[t.currentIndex].weight >= t.currentWeight then (t, servers[t.currentIndex].addr)
      else NextFrom(servers, t)
  }

  /** `n` successive calls of `next` from state `s`: their results. */
  function Run(servers: seq<Server>, s: Sched, n: nat): (r: seq<string>)
    requires Inv(servers, s)
    ensures |r| == n
    decreases n
  {
    if n == 0 then []
    else
      var (t, a) := NextFrom(servers, s);
      [a] + Run(servers, t, n - 1)
  }

  /** The state after `n` successive calls of `next` from `s`. */
  function After(servers: seq<Server>, s: Sched, n: nat): (t: Sched)
    requires Inv(servers, s)
    ensures Inv(servers, t)
    decreases n
  {
    if n == 0 then s else After(servers, NextFrom(servers, s).0, n - 1)
  }

  /** The calls after the first `a` continue from the state those calls left. */
  lemma {:induction false} RunSplit(servers: seq<Server>, s: Sched, a: nat, b: nat)
    requires Inv(servers, s)
    ensures Run(servers, s, a + b) == Run(servers, s, a) + Run(servers, After(servers, s, a), b)
    decreases a
  {
    if a > 0 {
      RunSplit(servers, NextFrom(servers, s).0, a - 1, b);
    }
  }

  // --------------------------------------- the usize arithmetic as written

  /** `a - b` on `usize`: `None` where the subtraction underflows. */
  function UsizeSub(a: nat, b: nat): (r: Option<nat>)
    ensures r.Some? <==> b <= a
    ensures r.Some? ==> r.value + b == a
  {
    if b <= a then Some(a - b) else None
  }

  lemma {:induction false} AfterStep(servers: seq<Server>, s: Sched, n: nat)
    requires Inv(servers, s)
    ensures After(servers, s, n + 1) == NextFrom(servers, After(servers, s, n)).0
    decreases n
  {
    if n > 0 {
      AfterStep(servers, NextFrom(servers, s).0, n - 1);
    }
  }

  lemma RunStep(servers: seq<Server>, s: Sched, n: nat)
    requires Inv(servers, s)
    ensures Run(servers, s, n + 1) == [NextFrom(servers, s).1] + Run(servers, NextFrom(servers, s).0, n)
  {
  }

  lemma RunOne(servers: seq<Server>, s: Sched)
    requires Inv(servers, s)
    ensures Run(servers, s, 1) == [NextFrom(servers, s).1]
  {
  }

  lemma FreshNoReset(servers: seq<Server>, j: nat)
    requires 0 < j < |servers|
    ensures !ResetsToZero(servers, Sched(0, j - 1))
  {
  }

  lemma FreshAdvance(servers: seq<Server>, j: nat)
    requires 0 < j < |servers|
    ensures Advance(servers, Sched(0, j - 1)) == Sched(0, j)
  {
  }

  /** A fresh selector passes every server on the first lap: threshold 0. */
  lemma FreshProbe(servers: seq<Server>, j: nat)
    requires 0 < j < |servers|
    ensures NextFrom(servers, Sched(0, j - 1)) == (Sched(0, j), servers[j].addr)
  {
    FreshNoReset(servers, j);
    FreshAdvance(servers, j);
  }

  /** From a fresh selector the first calls return servers 1, 2, ..., in order,
      whatever their weights, because every weight passes the initial threshold 0. */
  lemma {:induction false} FreshCallsWalkServers(servers: seq<Server>, j: nat)
    requires 0 < |servers| && j < |servers|
    ensures After(servers, Sched(0, 0), j) == Sched(0, j)
    ensures forall i | 0 <= i < j :: Run(servers, Sched(0, 0), j)[i] == servers[i + 1].addr
  {
    if j > 0 {
      var start := Sched(0, 0);
      FreshCallsWalkServers(servers, j - 1);
      FreshProbe(servers, j);
      AfterStep(servers, start, j - 1);
      RunSplit(servers, start, j - 1, 1);
      RunOne(servers, Sched(0, j - 1));
      var prefix := Run(servers, start, j - 1);
      assert Run(servers, start, j) == prefix + [servers[j].addr];
    }
  }

  /** With `usize` arithmetic, the call that first wraps the index to 0 — call
      number `|servers|` from a fresh selector — subtracts `gcd_weight` from a
      `current_weight` of 0, which underflows whenever some weight is positive. */
  lemma FirstWrapUnderflows(servers: seq<Server>)
    requires 0 < |servers| && MaxOf(servers) > 0
    ensures After(servers, Sched(0, 0), |servers| - 1) == Sched(0, |servers| - 1)
    ensures UsizeSub(0, GcdOf(servers)) == None
  {
    FreshCallsWalkServers(servers, |servers| - 1);
    MaxZeroIffGcdZero(servers);
  }

  /** A probe that takes the reset branch ends the call with the empty string. */
  lemma ProbeResets(servers: seq<Server>, s: Sched)
    requires Inv(servers, s) && ResetsToZero(servers, s)
    ensures NextFrom(servers, s) == (Sched(0, 0), "")
  {
  }

  /** A probe whose server reaches the threshold ends the call with that server. */
  lemma ProbeAccepts(servers: seq<Server>, s: Sched)
    requires Inv(servers, s) && !ResetsToZero(servers, s)
    requires var t := Advance(servers, s); servers[t.currentIndex].weight >= t.currentWeight
    ensures var t := Advance(servers, s); NextFrom(servers, s) == (t, servers[t.currentIndex].addr)
  {
  }

  /** Stepping the index forward, other than onto `k`, brings it closer to `k`. */
  lemma DistStep(n: nat, i: nat, k: nat, j: nat)
    requires i < n && k < n && j == (if i + 1 < n then i + 1 else 0) && j != k
    ensures Dist(n, j, k) < Dist(n, i, k)
  {
  }

  /** A probe whose server falls short leaves the rest of the call to the next
      probe, one step closer to a maximum-weight server. */
  lemma ProbeRejects(servers: seq<Server>, s: Sched)
    requires Inv(servers, s) && !ResetsToZero(servers, s)
    requires var t := Advance(servers, s); servers[t.currentIndex].weight < t.currentWeight
    ensures var t := Advance(servers, s);
      && NextFrom(servers, s) == NextFrom(servers, t)
      && Dist(|servers|, t.currentIndex, MaxIndex(servers)) < Dist(|servers|, s.currentIndex, MaxIndex(servers))
  {
    var t := Advance(servers, s);
    var k := MaxIndex(servers);
    assert t.currentIndex != k;
    DistStep(|servers|, s.currentIndex, k, t.currentIndex);
  }

  // ------------------------------------------------------ the selector

  class WeightedRoundRobin {
    /** `usize` in the source; an `int` here (see the module comment). */
    var currentWeight: int
    const maxWeight: nat
    const gcdWeight: nat
    var currentIndex: nat
    const servers: seq<Server>

    ghost function State(): Sched
      reads this
    {
      Sched(currentWeight, currentIndex)
    }

    ghost predicate Valid()
      reads this
    {
      && maxWeight == MaxOf(servers)
      && gcdWeight == GcdOf(servers)
      && 0 <= currentWeight <= maxWeight
      && (servers != [] ==> currentIndex < |servers|)
    }

    constructor (servers: seq<Server>)
      ensures Valid()
      ensures this.servers == servers
      ensures maxWeight == MaxOf(servers) && gcdWeight == GcdOf(servers)
      ensures currentWeight == 0 && currentIndex == 0
    {
      var maxW: nat, gcdW: nat := 0, 0;
      for i := 0 to |servers|
        invariant maxW == MaxOf(servers[..i])
        invariant gcdW == GcdOf(servers[..i])
      {
        assert servers[..i + 1][..i] == servers[..i];
        if servers[i].weight > maxW {
          maxW := servers[i].weight;
        }
        gcdW := Gcd(gcdW, servers[i].weight);
      }
      assert servers[..|servers|] == servers;
      currentWeight := 0;
      maxWeight := maxW;
      gcdWeight := gcdW;
      currentIndex := 0;
      this.servers := servers;
    }

    /** `next`: scan forward from the current index, lowering the threshold by
        the gcd at every wrap; `probes` counts the servers examined. */
    method Next() returns (r: string, ghost probes: nat)
      requires Valid() && |servers| > 0
      modifies this
      ensures Valid()
      ensures (State(), r) == NextFrom(servers, old(State()))
      ensures 1 <= probes <= |servers|
    {
      ghost var k := MaxIndex(servers);
      probes := 0;
      while true
        invariant Valid() && Inv(servers, State())
        invariant NextFrom(servers, State()) == NextFrom(servers, old(State()))
        invariant probes + Dist(|servers|, currentIndex, k) <= |servers|
        decreases Dist(|servers|, currentIndex, k)
      {
        ghost var before := State();
        StepIndex(currentIndex, |servers|);
        probes := probes + 1;
        currentIndex := (currentIndex + 1) % |servers|;
        if currentIndex == 0 {
          currentWeight := currentWeight - gcdWeight;
          if currentWeight <= 0 {
            currentWeight := maxWeight;
            if currentWeight == 0 {
              assert ResetsToZero(servers, before);
              ProbeResets(servers, before);
              return "", probes;
            }
          }
        }
        assert !ResetsToZero(servers, before);
        assert State() == Advance(servers, before);
        if servers[currentIndex].weight >= currentWeight {
          ProbeAccepts(servers, before);
          return servers[currentIndex].addr, probes;
        }
        ProbeRejects(servers, before);
      }
    }
  }
}
