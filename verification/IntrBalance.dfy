/** Round-robin assignment of interrupt sources to CPUs, per memory domain. */
module IntrBalance {
  import opened Arith
  import opened Common

  /** The eligible CPUs with numbers below n, in ascending order. */
  function Listed(eligible: set<nat>, n: nat): seq<nat> {
    if n == 0 then []
    else Listed(eligible, n - 1) + if n - 1 in eligible then [n - 1] else []
  }

  lemma {:induction false} ListedContents(eligible: set<nat>, n: nat)
    ensures forall c :: c in Listed(eligible, n) <==> c in eligible && c < n
    ensures forall i, j | 0 <= i < j < |Listed(eligible, n)| :: Listed(eligible, n)[i] < Listed(eligible, n)[j]
  {
    if n > 0 {
      ListedContents(eligible, n - 1);
      var before := Listed(eligible, n - 1);
      assert forall i | 0 <= i < |before| :: before[i] in before;
    }
  }

  /** n is the first eligible CPU after c, wrapping at maxid. */
  ghost predicate CyclicNext(eligible: set<nat>, maxid: nat, c: nat, n: nat) {
    && n in eligible && n <= maxid
    && if c < n then forall x | c < x < n :: x !in eligible
       else && (forall x | c < x <= maxid :: x !in eligible)
            && (forall x | 0 <= x < n :: x !in eligible)
  }

  /** Where the search of intr_next_cpu stands after k steps from CPU c. */
  function SearchAt(c: nat, maxid: nat, k: nat): nat {
    if k == 0 then c
    else
      var p := SearchAt(c, maxid, k - 1) + 1;
      if p > maxid then 0 else p
  }

  lemma {:induction false} SearchClimbs(c: nat, maxid: nat, k: nat)
    requires c + k <= maxid
    ensures SearchAt(c, maxid, k) == c + k
  {
    if k > 0 { SearchClimbs(c, maxid, k - 1); }
  }

  lemma {:induction false} SearchFromZero(c: nat, maxid: nat, k: nat)
    requires c <= maxid && k <= maxid
    ensures SearchAt(c, maxid, maxid - c + 1 + k) == k
  {
    if k == 0 {
      SearchClimbs(c, maxid, maxid - c);
    } else {
      SearchFromZero(c, maxid, k - 1);
    }
  }

  lemma {:induction false} SearchInRange(c: nat, maxid: nat, k: nat)
    requires c <= maxid
    ensures SearchAt(c, maxid, k) <= maxid
  {
    if k > 0 { SearchInRange(c, maxid, k - 1); }
  }

  /** The search ends, from wherever it starts, exactly if some CPU is eligible. */
  lemma SearchEndsExactly(eligible: set<nat>, maxid: nat, c: nat)
    requires c <= maxid
    ensures (exists k: nat :: k > 0 && SearchAt(c, maxid, k) in eligible) <==> exists n | n in eligible :: n <= maxid
  {
    if n :| n in eligible && n <= maxid {
      SearchFromZero(c, maxid, n);
      assert SearchAt(c, maxid, maxid - c + 1 + n) in eligible;
    }
    if k: nat :| k > 0 && SearchAt(c, maxid, k) in eligible {
      SearchInRange(c, maxid, k);
    }
  }

  /** The k-th position of a walk round n places. */
  function Round(k: nat, n: nat): (r: nat)
    requires n > 0
    ensures r < n
  {
    if k == 0 then 0 else var p := Round(k - 1, n); if p + 1 == n then 0 else p + 1
  }

  lemma NextMod(k: nat, n: nat)
    requires n > 0
    ensures (k + 1) % n == if k % n + 1 == n then 0 else k % n + 1
  {
    var q, r := k / n, k % n;
    assert k == n * q + r;
    if r + 1 == n {
      assert k + 1 == n * (q + 1);
      ModUnique(k + 1, n, q + 1, 0);
    } else {
      ModUnique(k + 1, n, q, r + 1);
    }
  }

  lemma NextRound(k: nat, n: nat, r: nat)
    requires n > 0 && Round(k, n) == r
    ensures Round(k + 1, n) == if r + 1 == n then 0 else r + 1
  {
  }

  lemma {:induction false} RoundIsMod(k: nat, n: nat)
    requires n > 0
    ensures Round(k, n) == k % n
  {
    if k == 0 {
      ModUnique(0, n, 0, 0);
    } else {
      RoundIsMod(k - 1, n);
      NextMod(k - 1, n);
      NextRound(k - 1, n, (k - 1) % n);
    }
  }

  /** Stepping to the next eligible CPU walks round the list of eligible CPUs. */
  lemma NextInList(eligible: set<nat>, maxid: nat, k: nat, n: nat)
    requires var e := Listed(eligible, maxid + 1); k < |e| && CyclicNext(eligible, maxid, e[k], n)
    ensures var e := Listed(eligible, maxid + 1); n == e[if k + 1 == |e| then 0 else k + 1]
  {
    var e := Listed(eligible, maxid + 1);
    ListedContents(eligible, maxid + 1);
    var i :| 0 <= i < |e| && e[i] == n;
    if k + 1 < |e| {
      assert e[k + 1] in e && e[k] < e[k + 1] <= maxid;
    } else {
      assert e[0] in e;
    }
  }

  lemma FirstInList(eligible: set<nat>, maxid: nat, n: nat)
    requires 0 !in eligible && CyclicNext(eligible, maxid, 0, n)
    ensures var e := Listed(eligible, maxid + 1); e != [] && n == e[0]
  {
    var e := Listed(eligible, maxid + 1);
    ListedContents(eligible, maxid + 1);
    assert n in e;
    assert e[0] in e;
  }

  lemma ZeroIsFirst(eligible: set<nat>, maxid: nat)
    requires 0 in eligible
    ensures var e := Listed(eligible, maxid + 1); e != [] && e[0] == 0
  {
    ListedContents(eligible, maxid + 1);
    var e := Listed(eligible, maxid + 1);
    assert 0 in e;
    assert e[0] in e;
  }

  /** What the scan knows of the interrupt sources. */
  datatype Sources = Sources(domain: seq<nat>, bound: seq<bool>)

  /** Is slot i of the sorted table an unbound source of domain d? */
  predicate Counts(sorted: seq<Option<nat>>, src: Sources, d: nat, i: nat)
    requires i < |sorted|
    requires forall x | x in sorted && x.Some? :: x.value < |src.domain| == |src.bound|
  {
    sorted[i].Some? && !src.bound[sorted[i].value] && src.domain[sorted[i].value] == d
  }

  ghost predicate Fits(sorted: seq<Option<nat>>, src: Sources) {
    && |src.domain| == |src.bound|
    && (forall x | x in sorted && x.Some? :: x.value < |src.domain|)
    && (forall i, j | 0 <= i < j < |sorted| && sorted[i].Some? :: sorted[i] != sorted[j])
  }

  /** Unbound sources of domain d that the downward scan meets before index i. */
  function Met(sorted: seq<Option<nat>>, src: Sources, d: nat, i: nat): nat
    requires i <= |sorted| && Fits(sorted, src)
    decreases |sorted| - i
  {
    if i == |sorted| then 0
    else Met(sorted, src, d, i + 1) + if Counts(sorted, src, d, i) then 1 else 0
  }

  /** Where a scan that has met k unbound sources of a domain stands in it. */
  function Target(eligible: set<nat>, maxid: nat, k: nat): nat
    requires Listed(eligible, maxid + 1) != []
  {
    var e := Listed(eligible, maxid + 1);
    e[Round(k, |e|)]
  }

  /** Every domain has a CPU that may take interrupts. */
  ghost predicate Usable(eligible: seq<set<nat>>, maxid: nat) {
    forall d | 0 <= d < |eligible| :: Listed(eligible[d], maxid + 1) != []
  }

  /** The scan down to index i has put the k-th unbound source of each domain
      on the (k mod E)-th eligible CPU, wherever assignment succeeded. */
  ghost predicate Placed(sorted: seq<Option<nat>>, src: Sources, maxid: nat, eligible: seq<set<nat>>,
                         ok: (nat, nat) -> bool, before: seq<nat>, after: seq<nat>, i: nat)
    requires i <= |sorted| && Fits(sorted, src) && |before| == |after| == |src.domain|
    requires Usable(eligible, maxid) && (forall s | 0 <= s < |src.domain| :: src.domain[s] < |eligible|)
  {
    forall j | i <= j < |sorted| && sorted[j].Some? && !src.bound[sorted[j].value] ::
      var s := sorted[j].value;
      var t := Target(eligible[src.domain[s]], maxid, Met(sorted, src, src.domain[s], j + 1));
      after[s] == if before[s] == t || ok(s, t) then t else before[s]
  }

  /** Putting the source at index i where the round-robin stands extends the placement. */
  lemma PlacedStep(sorted: seq<Option<nat>>, src: Sources, maxid: nat, eligible: seq<set<nat>>,
                   ok: (nat, nat) -> bool, before: seq<nat>, after: seq<nat>, i: nat, v: nat)
    requires i < |sorted| && Fits(sorted, src) && |before| == |after| == |src.domain|
    requires Usable(eligible, maxid) && (forall s | 0 <= s < |src.domain| :: src.domain[s] < |eligible|)
    requires Placed(sorted, src, maxid, eligible, ok, before, after, i + 1)
    requires sorted[i].Some? && !src.bound[sorted[i].value]
    requires var s := sorted[i].value;
             var t := Target(eligible[src.domain[s]], maxid, Met(sorted, src, src.domain[s], i + 1));
             v == if before[s] == t || ok(s, t) then t else before[s]
    ensures Placed(sorted, src, maxid, eligible, ok, before, after[sorted[i].value := v], i)
  {
  }

  // ----- fairness

  /** How often a walk of k steps round n places stood at place j. */
  function Load(k: nat, n: nat, j: nat): nat
    requires n > 0
  {
    if k == 0 then 0 else Load(k - 1, n, j) + if Round(k - 1, n) == j then 1 else 0
  }

  function Laps(k: nat, n: nat): nat
    requires n > 0
  {
    if k == 0 then 0 else Laps(k - 1, n) + if Round(k, n) == 0 then 1 else 0
  }

  lemma {:induction false} LoadIsEven(k: nat, n: nat, j: nat)
    requires j < n
    ensures Load(k, n, j) == Laps(k, n) + if j < Round(k, n) then 1 else 0
  {
    if k > 0 { LoadIsEven(k - 1, n, j); }
  }

  /** Unbound sources of domain d, from index i on, that are on the given CPU. */
  function OnCpu(sorted: seq<Option<nat>>, src: Sources, d: nat, cpus: seq<nat>, cpu: nat, i: nat): nat
    requires i <= |sorted| && Fits(sorted, src) && |cpus| == |src.domain|
    decreases |sorted| - i
  {
    if i == |sorted| then 0
    else OnCpu(sorted, src, d, cpus, cpu, i + 1)
         + if Counts(sorted, src, d, i) && cpus[sorted[i].value] == cpu then 1 else 0
  }

  lemma TargetIs(eligible: set<nat>, maxid: nat, k: nat, j: nat)
    requires j < |Listed(eligible, maxid + 1)|
    ensures var e := Listed(eligible, maxid + 1); Target(eligible, maxid, k) == e[j] <==> Round(k, |e|) == j
  {
    ListedContents(eligible, maxid + 1);
  }

  lemma {:induction false} OnCpuIsLoad(sorted: seq<Option<nat>>, src: Sources, maxid: nat, eligible: seq<set<nat>>,
                                       ok: (nat, nat) -> bool, before: seq<nat>, after: seq<nat>, d: nat, j: nat, i: nat)
    requires i <= |sorted| && Fits(sorted, src) && |before| == |after| == |src.domain|
    requires Usable(eligible, maxid) && (forall s | 0 <= s < |src.domain| :: src.domain[s] < |eligible|)
    requires Placed(sorted, src, maxid, eligible, ok, before, after, 0)
    requires d < |eligible| && j < |Listed(eligible[d], maxid + 1)| && (forall s: nat, c: nat :: ok(s, c))
    ensures var e := Listed(eligible[d], maxid + 1);
            OnCpu(sorted, src, d, after, e[j], i) == Load(Met(sorted, src, d, i), |e|, j)
    decreases |sorted| - i
  {
    if i < |sorted| {
      OnCpuIsLoad(sorted, src, maxid, eligible, ok, before, after, d, j, i + 1);
      if Counts(sorted, src, d, i) {
        assert after[sorted[i].value] == Target(eligible[d], maxid, Met(sorted, src, d, i + 1));
        TargetIs(eligible[d], maxid, Met(sorted, src, d, i + 1), j);
      }
    }
  }

  /** With all assignments succeeding, the unbound sources of a domain are
      spread over its eligible CPUs with loads that differ by at most one, and
      all of them are on eligible CPUs. */
  lemma BalanceIsFair(sorted: seq<Option<nat>>, src: Sources, maxid: nat, eligible: seq<set<nat>>,
                      ok: (nat, nat) -> bool, before: seq<nat>, after: seq<nat>, d: nat, a: nat, b: nat)
    requires Fits(sorted, src) && |before| == |after| == |src.domain|
    requires Usable(eligible, maxid) && (forall s | 0 <= s < |src.domain| :: src.domain[s] < |eligible|)
    requires Placed(sorted, src, maxid, eligible, ok, before, after, 0)
    requires d < |eligible| && (forall s: nat, c: nat :: ok(s, c))
    requires a in eligible[d] && a <= maxid && b in eligible[d] && b <= maxid
    ensures OnCpu(sorted, src, d, after, a, 0) <= OnCpu(sorted, src, d, after, b, 0) + 1
    ensures forall i: nat | i < |sorted| && Counts(sorted, src, d, i) ::
              after[sorted[i].value] in eligible[d] && after[sorted[i].value] <= maxid
  {
    var e := Listed(eligible[d], maxid + 1);
    ListedContents(eligible[d], maxid + 1);
    var j :| 0 <= j < |e| && e[j] == a;
    var k :| 0 <= k < |e| && e[k] == b;
    OnCpuIsLoad(sorted, src, maxid, eligible, ok, before, after, d, j, 0);
    OnCpuIsLoad(sorted, src, maxid, eligible, ok, before, after, d, k, 0);
    var n := Met(sorted, src, d, 0);
    LoadIsEven(n, |e|, j);
    LoadIsEven(n, |e|, k);
    forall i: nat | i < |sorted| && Counts(sorted, src, d, i) ensures after[sorted[i].value] in e {
      assert after[sorted[i].value] == Target(eligible[d], maxid, Met(sorted, src, d, i + 1));
    }
  }

  /** The slots of the table whose unbound source of domain d is on the given CPU. */
  ghost function SlotsOn(sorted: seq<Option<nat>>, src: Sources, cpus: seq<nat>, d: nat, cpu: nat, from: nat): set<nat>
    requires Fits(sorted, src) && |cpus| == |src.domain|
  {
    set i: nat | from <= i < |sorted| && Counts(sorted, src, d, i) && cpus[sorted[i].value] == cpu
  }

  lemma SetStep(now: set<nat>, rest: set<nat>, i: nat, here: bool)
    requires forall k :: k in now <==> k in rest || (here && k == i)
    requires i !in rest
    ensures |now| == |rest| + if here then 1 else 0
  {
    assert now == if here then rest + {i} else rest;
  }

  lemma {:induction false} OnCpuIsSlots(sorted: seq<Option<nat>>, src: Sources, d: nat, cpus: seq<nat>, cpu: nat, i: nat)
    requires i <= |sorted| && Fits(sorted, src) && |cpus| == |src.domain|
    ensures OnCpu(sorted, src, d, cpus, cpu, i) == |SlotsOn(sorted, src, cpus, d, cpu, i)|
    decreases |sorted| - i
  {
    var now := SlotsOn(sorted, src, cpus, d, cpu, i);
    if i == |sorted| {
      assert now == {};
    } else {
      OnCpuIsSlots(sorted, src, d, cpus, cpu, i + 1);
      var here := Counts(sorted, src, d, i) && cpus[sorted[i].value] == cpu;
      SetStep(now, SlotsOn(sorted, src, cpus, d, cpu, i + 1), i, here);
    }
  }

  // ----- the order of the round-robin

  lemma TargetStarts(eligible: set<nat>, maxid: nat)
    requires Listed(eligible, maxid + 1) != []
    ensures var t := Target(eligible, maxid, 0); t in eligible && t <= maxid && forall x | x in eligible :: t <= x
  {
    ListedContents(eligible, maxid + 1);
    var e := Listed(eligible, maxid + 1);
    assert e[0] in e;
    forall x | x in eligible && x <= maxid ensures e[0] <= x {
      assert x in e;
    }
  }

  lemma BetweenNeighbours(e: seq<nat>, p: nat, x: nat)
    requires x in e && p < |e| && forall i, j | 0 <= i < j < |e| :: e[i] < e[j]
    ensures p + 1 < |e| ==> x <= e[p] || e[p + 1] <= x
    ensures e[0] <= x <= e[|e| - 1]
  {
    var q :| 0 <= q < |e| && e[q] == x;
    assert q < p ==> e[q] < e[p];
    assert p + 1 < q ==> e[p + 1] < e[q];
  }

  lemma ListGoesOn(eligible: set<nat>, maxid: nat, p: nat)
    requires p < |Listed(eligible, maxid + 1)|
    ensures var e := Listed(eligible, maxid + 1);
            CyclicNext(eligible, maxid, e[p], e[if p + 1 == |e| then 0 else p + 1])
  {
    ListedContents(eligible, maxid + 1);
    var e := Listed(eligible, maxid + 1);
    var n := e[if p + 1 == |e| then 0 else p + 1];
    assert n in e && (p + 1 < |e| ==> e[p] < e[p + 1]) && (p + 1 == |e| ==> n <= e[p]);
    forall x: nat | x in eligible && x <= maxid
      ensures p + 1 < |e| ==> x <= e[p] || e[p + 1] <= x
      ensures e[0] <= x <= e[|e| - 1]
    {
      BetweenNeighbours(e, p, x);
    }
  }

  lemma TargetGoesOn(eligible: set<nat>, maxid: nat, k: nat)
    requires Listed(eligible, maxid + 1) != []
    ensures CyclicNext(eligible, maxid, Target(eligible, maxid, k), Target(eligible, maxid, k + 1))
  {
    ListGoesOn(eligible, maxid, Round(k, |Listed(eligible, maxid + 1)|));
  }

  lemma {:induction false} MetSkips(sorted: seq<Option<nat>>, src: Sources, d: nat, i: nat, j: nat)
    requires i <= j <= |sorted| && Fits(sorted, src)
    requires forall k: nat | i <= k < j :: !Counts(sorted, src, d, k)
    ensures Met(sorted, src, d, i) == Met(sorted, src, d, j)
    decreases j - i
  {
    if i < j { MetSkips(sorted, src, d, i + 1, j); }
  }

  /** Of domain d, the last unbound source of the table is on the first eligible
      CPU, and each one before it on the next after the following one's. */
  ghost predicate Walks(sorted: seq<Option<nat>>, src: Sources, cpus: seq<nat>, d: nat, eligible: set<nat>, maxid: nat)
    requires Fits(sorted, src) && |cpus| == |src.domain|
  {
    && (forall i: nat | i < |sorted| && Counts(sorted, src, d, i)
                        && (forall k: nat | i < k < |sorted| :: !Counts(sorted, src, d, k)) ::
          forall x | x in eligible :: cpus[sorted[i].value] <= x)
    && (forall i: nat, j: nat | i < j < |sorted| && Counts(sorted, src, d, i) && Counts(sorted, src, d, j)
                                && (forall k: nat | i < k < j :: !Counts(sorted, src, d, k)) ::
          CyclicNext(eligible, maxid, cpus[sorted[j].value], cpus[sorted[i].value]))
  }

  lemma LastWalks(sorted: seq<Option<nat>>, src: Sources, maxid: nat, e: set<nat>, cpus: seq<nat>, d: nat, i: nat)
    requires Fits(sorted, src) && |cpus| == |src.domain| && Listed(e, maxid + 1) != []
    requires i < |sorted| && Counts(sorted, src, d, i) && forall k: nat | i < k < |sorted| :: !Counts(sorted, src, d, k)
    requires cpus[sorted[i].value] == Target(e, maxid, Met(sorted, src, d, i + 1))
    ensures forall x | x in e :: cpus[sorted[i].value] <= x
  {
    MetSkips(sorted, src, d, i + 1, |sorted|);
    TargetStarts(e, maxid);
  }

  lemma PairWalks(sorted: seq<Option<nat>>, src: Sources, maxid: nat, e: set<nat>, cpus: seq<nat>, d: nat, i: nat, j: nat)
    requires Fits(sorted, src) && |cpus| == |src.domain| && Listed(e, maxid + 1) != []
    requires i < j < |sorted| && Counts(sorted, src, d, i) && Counts(sorted, src, d, j)
    requires forall k: nat | i < k < j :: !Counts(sorted, src, d, k)
    requires cpus[sorted[i].value] == Target(e, maxid, Met(sorted, src, d, i + 1))
    requires cpus[sorted[j].value] == Target(e, maxid, Met(sorted, src, d, j + 1))
    ensures CyclicNext(e, maxid, cpus[sorted[j].value], cpus[sorted[i].value])
  {
    MetSkips(sorted, src, d, i + 1, j);
    TargetGoesOn(e, maxid, Met(sorted, src, d, j + 1));
  }

  lemma TargetsWalk(sorted: seq<Option<nat>>, src: Sources, maxid: nat, e: set<nat>, cpus: seq<nat>, d: nat)
    requires Fits(sorted, src) && |cpus| == |src.domain| && Listed(e, maxid + 1) != []
    requires forall i: nat | i < |sorted| && Counts(sorted, src, d, i) ::
               cpus[sorted[i].value] == Target(e, maxid, Met(sorted, src, d, i + 1))
    ensures Walks(sorted, src, cpus, d, e, maxid)
  {
    forall i: nat | i < |sorted| && Counts(sorted, src, d, i)
                    && (forall k: nat | i < k < |sorted| :: !Counts(sorted, src, d, k))
      ensures forall x | x in e :: cpus[sorted[i].value] <= x
    {
      LastWalks(sorted, src, maxid, e, cpus, d, i);
    }
    forall i: nat, j: nat | i < j < |sorted| && Counts(sorted, src, d, i) && Counts(sorted, src, d, j)
                            && (forall k: nat | i < k < j :: !Counts(sorted, src, d, k))
      ensures CyclicNext(e, maxid, cpus[sorted[j].value], cpus[sorted[i].value])
    {
      PairWalks(sorted, src, maxid, e, cpus, d, i, j);
    }
  }

  lemma PlacedWalks(sorted: seq<Option<nat>>, src: Sources, maxid: nat, eligible: seq<set<nat>>,
                    ok: (nat, nat) -> bool, before: seq<nat>, after: seq<nat>, d: nat)
    requires Fits(sorted, src) && |before| == |after| == |src.domain|
    requires Usable(eligible, maxid) && (forall s | 0 <= s < |src.domain| :: src.domain[s] < |eligible|)
    requires Placed(sorted, src, maxid, eligible, ok, before, after, 0)
    requires d < |eligible| && (forall s: nat, c: nat :: ok(s, c))
    ensures Walks(sorted, src, after, d, eligible[d], maxid)
  {
    TargetsWalk(sorted, src, maxid, eligible[d], after, d);
  }

  /** The unbound sources of domain d are on interrupt CPUs of that domain,
      spread over all of them in turn, with loads that differ by at most one. */
  ghost predicate Spread(sorted: seq<Option<nat>>, src: Sources, maxid: nat, intrCpus: set<nat>, domain: set<nat>,
                         d: nat, cpus: seq<nat>)
    requires Fits(sorted, src) && |cpus| == |src.domain|
  {
    && (forall i: nat | i < |sorted| && Counts(sorted, src, d, i) ::
          var c := cpus[sorted[i].value]; c in intrCpus && c in domain && c <= maxid)
    && (forall a: nat, b: nat | a in intrCpus && a in domain && a <= maxid && b in intrCpus && b in domain && b <= maxid ::
          |SlotsOn(sorted, src, cpus, d, a, 0)| <= |SlotsOn(sorted, src, cpus, d, b, 0)| + 1)
    && Walks(sorted, src, cpus, d, intrCpus * domain, maxid)
  }

  lemma PlacedIsSpread(sorted: seq<Option<nat>>, src: Sources, maxid: nat, eligible: seq<set<nat>>,
                       ok: (nat, nat) -> bool, before: seq<nat>, after: seq<nat>,
                       intrCpus: set<nat>, domain: set<nat>, d: nat)
    requires Fits(sorted, src) && |before| == |after| == |src.domain|
    requires Usable(eligible, maxid) && (forall s | 0 <= s < |src.domain| :: src.domain[s] < |eligible|)
    requires Placed(sorted, src, maxid, eligible, ok, before, after, 0)
    requires d < |eligible| && eligible[d] == intrCpus * domain && (forall s: nat, c: nat :: ok(s, c))
    ensures Spread(sorted, src, maxid, intrCpus, domain, d, after)
  {
    PlacedWalks(sorted, src, maxid, eligible, ok, before, after, d);
    ListedContents(eligible[d], maxid + 1);
    var some := Listed(eligible[d], maxid + 1)[0];
    assert some in Listed(eligible[d], maxid + 1);
    BalanceIsFair(sorted, src, maxid, eligible, ok, before, after, d, some, some);
    forall a: nat, b: nat | a in intrCpus && a in domain && a <= maxid && b in intrCpus && b in domain && b <= maxid
      ensures |SlotsOn(sorted, src, after, d, a, 0)| <= |SlotsOn(sorted, src, after, d, b, 0)| + 1
    {
      BalanceIsFair(sorted, src, maxid, eligible, ok, before, after, d, a, b);
      OnCpuIsSlots(sorted, src, d, after, a, 0);
      OnCpuIsSlots(sorted, src, d, after, b, 0);
    }
  }

  lemma TargetIsEligible(eligible: set<nat>, maxid: nat, k: nat)
    requires Listed(eligible, maxid + 1) != []
    ensures Target(eligible, maxid, k) in eligible && Target(eligible, maxid, k) <= maxid
  {
    ListedContents(eligible, maxid + 1);
    assert Target(eligible, maxid, k) in Listed(eligible, maxid + 1);
  }

  /** Where a listed unbound source is after the scan. */
  lemma PlacedSource(sorted: seq<Option<nat>>, src: Sources, maxid: nat, eligible: seq<set<nat>>,
                     ok: (nat, nat) -> bool, before: seq<nat>, after: seq<nat>, s: nat)
    requires Fits(sorted, src) && |before| == |after| == |src.domain|
    requires Usable(eligible, maxid) && (forall s | 0 <= s < |src.domain| :: src.domain[s] < |eligible|)
    requires Placed(sorted, src, maxid, eligible, ok, before, after, 0)
    requires s < |src.domain| && Some(s) in sorted && !src.bound[s]
    ensures after[s] == before[s] || (after[s] in eligible[src.domain[s]] && after[s] <= maxid)
    ensures (forall c: nat :: ok(s, c)) ==> after[s] in eligible[src.domain[s]] && after[s] <= maxid
  {
    var j :| 0 <= j < |sorted| && sorted[j] == Some(s);
    TargetIsEligible(eligible[src.domain[s]], maxid, Met(sorted, src, src.domain[s], j + 1));
  }

  class Balancer {
    const maxid: nat
    const intrCpus: set<nat>
    const domainCpus: seq<set<nat>>
    const current: array<nat>

    /** CPUs of each domain that are interrupt targets. */
    ghost function Eligible(): seq<set<nat>> {
      seq(|domainCpus|, d requires 0 <= d < |domainCpus| => intrCpus * domainCpus[d])
    }

    ghost predicate Valid()
      reads this, current
    {
      current.Length == |domainCpus| && Usable(Eligible(), maxid)
    }

    constructor (maxid: nat, intrCpus: set<nat>, domainCpus: seq<set<nat>>)
      requires forall d | 0 <= d < |domainCpus| :: exists c | c in intrCpus :: c in domainCpus[d] && c <= maxid
      ensures Valid() && this.maxid == maxid && this.intrCpus == intrCpus && this.domainCpus == domainCpus
    {
      this.maxid, this.intrCpus, this.domainCpus := maxid, intrCpus, domainCpus;
      current := new nat[|domainCpus|](_ => 0);
      forall d | 0 <= d < |domainCpus| ensures Listed(intrCpus * domainCpus[d], maxid + 1) != [] {
        var c :| c in intrCpus && c in domainCpus[d] && c <= maxid;
        ListedContents(intrCpus * domainCpus[d], maxid + 1);
        assert c in Listed(intrCpus * domainCpus[d], maxid + 1);
      }
    }

    /** intr_next_cpu, with round-robin active: the first place of the search
        that is an eligible CPU. It is reached because the domain has one. */
    method IntrNextCpu(d: nat) returns (ghost steps: nat)
      requires Valid() && d < |domainCpus| && current[d] <= maxid
      modifies current
      ensures steps > 0 && current[d] == SearchAt(old(current[d]), maxid, steps)
      ensures current[d] in intrCpus && current[d] in domainCpus[d] && current[d] <= maxid
      ensures forall k | 0 < k < steps :: SearchAt(old(current[d]), maxid, k) !in intrCpus * domainCpus[d]
      ensures CyclicNext(intrCpus * domainCpus[d], maxid, old(current[d]), current[d])
      ensures current[..] == old(current[..])[d := current[d]]
    {
      ghost var eligible := Eligible()[d];
      ghost var start := current[d];
      ListedContents(eligible, maxid + 1);
      ghost var some := Listed(eligible, maxid + 1)[0];
      assert some in Listed(eligible, maxid + 1);
      ghost var wrapped := false;
      steps := 0;
      var first := true;
      while first || current[d] !in intrCpus || current[d] !in domainCpus[d]
        invariant current[d] <= maxid
        invariant current[..] == old(current[..])[d := current[d]]
        invariant current[d] == SearchAt(start, maxid, steps) && (first <==> steps == 0)
        invariant forall k | 0 < k < steps :: SearchAt(start, maxid, k) !in eligible
        invariant first ==> current[d] == start && !wrapped
        invariant !first && !wrapped ==> start < current[d] && forall x | start < x < current[d] :: x !in eligible
        invariant wrapped ==> (forall x | start < x <= maxid :: x !in eligible)
        invariant wrapped ==> current[d] <= start && (forall x | 0 <= x < current[d] :: x !in eligible)
        decreases if wrapped then 0 else 1, maxid + 1 - current[d]
      {
        current[d] := current[d] + 1;
        if current[d] > maxid {
          current[d] := 0;
          wrapped := true;
        }
        first := false;
        steps := steps + 1;
      }
    }

    /** intr_init_cpus: every domain starts at its first eligible CPU. */
    method IntrInitCpus()
      requires Valid()
      modifies current
      ensures forall d | 0 <= d < |domainCpus| :: current[d] == Target(Eligible()[d], maxid, 0)
      ensures forall d | 0 <= d < |domainCpus| ::
                && current[d] in intrCpus && current[d] in domainCpus[d] && current[d] <= maxid
                && forall c | c in intrCpus && c in domainCpus[d] :: current[d] <= c
    {
      var i := 0;
      while i < |domainCpus|
        invariant i <= |domainCpus|
        invariant forall d | 0 <= d < i :: current[d] == Target(Eligible()[d], maxid, 0)
      {
        current[i] := 0;
        assert Eligible()[i] == intrCpus * domainCpus[i];
        if 0 !in intrCpus || 0 !in domainCpus[i] {
          label Before:
          ghost var steps := IntrNextCpu(i);
          FirstInList(Eligible()[i], maxid, current[i]);
          assert forall d | 0 <= d < i :: current[..][d] == old@Before(current[..])[d];
        } else {
          ZeroIsFirst(Eligible()[i], maxid);
        }
        i := i + 1;
      }
      forall d | 0 <= d < |domainCpus|
        ensures current[d] in intrCpus && current[d] in domainCpus[d] && current[d] <= maxid
        ensures forall c | c in intrCpus && c in domainCpus[d] :: current[d] <= c
      {
        TargetStarts(Eligible()[d], maxid);
        assert forall c | c in intrCpus && c in domainCpus[d] :: c in Eligible()[d];
      }
    }

    /** Step the round-robin of one domain. */
    method Advance(d: nat, ghost k: nat)
      requires Valid() && d < |domainCpus| && current[d] == Target(Eligible()[d], maxid, k)
      modifies current
      ensures current[..] == old(current[..])[d := Target(Eligible()[d], maxid, k + 1)]
    {
      ghost var eligible := Eligible()[d];
      ghost var e := Listed(eligible, maxid + 1);
      ListedContents(eligible, maxid + 1);
      assert current[d] in e;
      ghost var steps := IntrNextCpu(d);
      NextInList(eligible, maxid, Round(k, |e|), current[d]);
    }

    /** What the placement means in terms of the CPU sets. */
    lemma Settled(sorted: seq<Option<nat>>, src: Sources, ok: (nat, nat) -> bool, before: seq<nat>, after: seq<nat>)
      requires Valid() && Fits(sorted, src) && |before| == |after| == |src.domain|
      requires forall s | 0 <= s < |src.domain| :: src.domain[s] < |domainCpus|
      requires Placed(sorted, src, maxid, Eligible(), ok, before, after, 0)
      ensures forall s: nat | s < |after| && Some(s) in sorted && !src.bound[s] ::
                var there := after[s] in intrCpus && after[s] in domainCpus[src.domain[s]] && after[s] <= maxid;
                (after[s] == before[s] || there) && ((forall c: nat :: ok(s, c)) ==> there)
      ensures (forall s: nat, c: nat :: ok(s, c)) ==>
                forall d: nat | d < |domainCpus| :: Spread(sorted, src, maxid, intrCpus, domainCpus[d], d, after)
    {
      forall s: nat | s < |after| && Some(s) in sorted && !src.bound[s]
        ensures after[s] == before[s] || (after[s] in Eligible()[src.domain[s]] && after[s] <= maxid)
        ensures (forall c: nat :: ok(s, c)) ==> after[s] in Eligible()[src.domain[s]] && after[s] <= maxid
      {
        PlacedSource(sorted, src, maxid, Eligible(), ok, before, after, s);
      }
      if forall s: nat, c: nat :: ok(s, c) {
        forall d: nat | d < |domainCpus| ensures Spread(sorted, src, maxid, intrCpus, domainCpus[d], d, after) {
          PlacedIsSpread(sorted, src, maxid, Eligible(), ok, before, after, intrCpus, domainCpus[d], d);
        }
      }
    }

    /** intr_balance. sorted is the table of sources in the order qsort left
        it; ok says which pic_assign_cpu calls succeed. */
    method Balance(sorted: seq<Option<nat>>, src: Sources, ok: (nat, nat) -> bool, isCpu: array<nat>)
      requires Valid() && Fits(sorted, src) && isCpu.Length == |src.domain| && isCpu != current
      requires forall s | 0 <= s < |src.domain| :: src.domain[s] < |domainCpus|
      modifies current, isCpu
      ensures Placed(sorted, src, maxid, Eligible(), ok, old(isCpu[..]), isCpu[..], 0)
      ensures forall s | 0 <= s < isCpu.Length && (src.bound[s] || Some(s) !in sorted) :: isCpu[s] == old(isCpu[s])
      ensures forall s: nat | s < isCpu.Length && Some(s) in sorted && !src.bound[s] ::
                var there := isCpu[s] in intrCpus && isCpu[s] in domainCpus[src.domain[s]] && isCpu[s] <= maxid;
                (isCpu[s] == old(isCpu[s]) || there) && ((forall c: nat :: ok(s, c)) ==> there)
      ensures (forall s: nat, c: nat :: ok(s, c)) ==>
                forall d: nat | d < |domainCpus| :: Spread(sorted, src, maxid, intrCpus, domainCpus[d], d, isCpu[..])
    {
      IntrInitCpus();
      ghost var before := isCpu[..];
      var i := |sorted|;
      while i > 0
        invariant 0 <= i <= |sorted|
        invariant forall d | 0 <= d < |domainCpus| ::
                    current[d] == Target(Eligible()[d], maxid, Met(sorted, src, d, i))
        invariant Placed(sorted, src, maxid, Eligible(), ok, before, isCpu[..], i)
        invariant forall s | 0 <= s < isCpu.Length && (src.bound[s] || Some(s) !in sorted[i..]) :: isCpu[s] == before[s]
      {
        i := i - 1;
        assert sorted[i..] == [sorted[i]] + sorted[i + 1..];
        var slot := sorted[i];
        if slot.Some? && !src.bound[slot.value] {
          var s, d := slot.value, src.domain[slot.value];
          var cpu := current[d];
          Advance(d, Met(sorted, src, d, i + 1));
          assert Some(s) !in sorted[i + 1..];
          ghost var v := if isCpu[s] == cpu || ok(s, cpu) then cpu else isCpu[s];
          PlacedStep(sorted, src, maxid, Eligible(), ok, before, isCpu[..], i, v);
          ghost var cpus := isCpu[..][s := v];
          if isCpu[s] != cpu && ok(s, cpu) {
            isCpu[s] := cpu;
          }
          assert isCpu[..] == cpus;
        }
      }
      Settled(sorted, src, ok, before, isCpu[..]);
    }
  }
}
