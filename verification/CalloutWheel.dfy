/** The hashed callout wheel: bucket lists, a lazily advanced 32-bit clock and
    a scan cursor that survives whatever the running handlers do. */
module CalloutWheel {
  import opened Arith
  import opened Common
  import opened CalloutList
  import opened CalloutSpec

  const WORD := 0x1_0000_0000
  const HALF := 0x8000_0000

  /** Find last set: the index, from one, of the highest set bit. */
  function Fls(n: nat): nat {
    if n == 0 then 0 else 1 + Fls(n / 2)
  }

  /** The wheel has more buckets than callouts, and at most twice as many. */
  lemma {:induction false} WheelSizeIsNextPowerOfTwo(n: nat)
    ensures n < Pow2(Fls(n))
    ensures n > 0 ==> Pow2(Fls(n)) <= 2 * n
  {
    if n > 0 {
      WheelSizeIsNextPowerOfTwo(n / 2);
    }
  }

  lemma {:induction false} FlsBound(n: nat, k: nat)
    requires n < Pow2(k)
    ensures Fls(n) <= k
  {
    if n > 0 {
      FlsBound(n / 2, k - 1);
    }
  }

  lemma WheelFits(n: nat)
    requires n < HALF
    ensures Fls(n) <= 32 && n < Pow2(Fls(n))
  {
    WheelSizeIsNextPowerOfTwo(n);
    PowersOfTwo();
    FlsBound(n, 31);
  }

  /** A 32-bit difference tested for being negative as a C int. */
  predicate Negative32(x: int) {
    x % WORD >= HALF
  }

  /** While the backlog is at most 2^31 the signed test says whether the clock is behind. */
  lemma BehindTest(soft: int, now: int)
    requires 0 <= now - soft < WORD
    ensures Negative32(soft % WORD - now % WORD) <==> 0 < now - soft <= HALF
    ensures soft % WORD == now % WORD <==> soft == now
  {
  }

  lemma AddTicks(tick: int, n: int)
    ensures (tick % WORD + n) % WORD == (tick + n) % WORD
  {
  }

  /** Two ticks less than 2^32 apart have different 32-bit images. */
  lemma SameTick(a: int, b: int)
    requires 0 <= a - b < WORD
    ensures a % WORD == b % WORD <==> a == b
  {
  }

  /** The k low bits of a tick: x & (2^k - 1). */
  function LowBits(x: int, k: nat): (r: nat)
    ensures r < Pow2(k)
    decreases k
  {
    if k == 0 then 0 else x % 2 + 2 * LowBits(x / 2, k - 1)
  }

  lemma HalveMod(x: int, m: int)
    requires m > 0
    ensures 2 * m > 0 && (x % (2 * m)) % 2 == x % 2 && (x % (2 * m)) / 2 == (x / 2) % m
  {
    var a, r := x / (2 * m), x % (2 * m);
    assert x == 2 * (m * a) + r;
    assert x / 2 == m * a + r / 2;
    ModUnique(x / 2, m, a, r / 2);
  }

  lemma {:induction false} LowBitsOfWord(x: int, k: nat, n: nat)
    requires k <= n
    ensures LowBits(x % Pow2(n), k) == LowBits(x, k)
    decreases k
  {
    if k > 0 {
      HalveMod(x, Pow2(n - 1));
      LowBitsOfWord(x / 2, k - 1, n - 1);
    }
  }

  /** A bucket index can be read off the 32-bit image of a tick. */
  lemma BucketOfTick(tick: int, k: nat)
    requires k <= 32
    ensures LowBits(tick % WORD, k) == LowBits(tick, k)
  {
    PowersOfTwo();
    LowBitsOfWord(tick, k, 32);
  }

  /** Each pending callout is on exactly the list its due tick hashes to, once. */
  ghost predicate Placed(w: seq<seq<Callout>>, due: Due, k: nat) {
    && |w| == Pow2(k)
    && (forall b | 0 <= b < |w| :: NoDup(w[b]))
    && (forall b, c | 0 <= b < |w| :: c in w[b] <==> c in due && LowBits(due[c], k) == b)
  }

  lemma PlaceRemove(w: seq<seq<Callout>>, due: Due, k: nat, c: Callout)
    requires Placed(w, due, k) && c in due
    ensures var b := LowBits(due[c], k); Placed(w[b := Remove(w[b], c)], due - {c}, k)
  {
    RemoveContents(w[LowBits(due[c], k)], c);
  }

  lemma PlaceAdd(w: seq<seq<Callout>>, due: Due, k: nat, c: Callout, tick: int)
    requires Placed(w, due, k) && c !in due
    ensures var b := LowBits(tick, k); Placed(w[b := [c] + w[b]], due[c := tick], k)
  {
  }

  /** The cursor after c is taken off the list it is on. */
  function CursorOff(w: seq<Callout>, c: Callout, next: Option<Callout>): Option<Callout> {
    if next == Some(c) then Next(w, c) else next
  }

  /** Taking c off the scanned list leaves the cursor on that list, and
      everything it had in front of it, apart from c, still in front. */
  lemma CursorSurvives(w: seq<Callout>, c: Callout, next: Option<Callout>)
    requires NoDup(w) && c in w && (next.Some? ==> next.value in w)
    ensures var next', w' := CursorOff(w, c, next), Remove(w, c);
            && (next'.Some? ==> next'.value in w')
            && (forall x | x in From(w, next) && x != c :: x in From(w', next'))
  {
    RemoveContents(w, c);
    if next == Some(c) {
      CursorLeaves(w, c);
    } else {
      FromRemove(w, c, next);
      FromContents(w, next);
      RemoveContents(From(w, next), c);
    }
  }

  lemma LinkAtHead(w: seq<Callout>, c: Callout, next: Option<Callout>)
    ensures From([c] + w, Some(c)) == [c] + w
    ensures forall x | x in From(w, next) :: x in [c] + w
    ensures next != Some(c) ==> From([c] + w, next) == From(w, next)
  {
    FromContents(w, next);
    assert ([c] + w)[1..] == w;
  }

  lemma OpsAddOnlyLater(due: Due, ops: seq<Op>, now: int)
    ensures var due' := ApplyOps(due, ops, now);
            forall x | x in due' :: due'[x] > now || (x in due && due'[x] == due[x] && !Touches(ops, x))
  {
    forall x: Callout { OpsKeep(due, ops, now, x); }
  }

  lemma HandlersSnoc(runs: seq<Run>, r: Run, h: Handlers)
    requires FromHandlers(runs, h) && r.ops == h(runs, r.c)
    ensures FromHandlers(runs + [r], h)
  {
    forall k | 0 <= k < |runs + [r]|
      ensures (runs + [r])[k].ops == h((runs + [r])[..k], (runs + [r])[k].c)
    {
      assert (runs + [r])[..k] == runs[..k];
      assert runs[..|runs|] == runs;
    }
  }

  lemma {:induction false} OnceInList(s: seq<Callout>, c: Callout)
    requires NoDup(s) && c in s
    ensures multiset(s)[c] == 1
  {
    assert s == [s[0]] + s[1..];
    if s[0] != c {
      OnceInList(s[1..], c);
    } else {
      assert c !in s[1..];
    }
  }

  /** A call into the callout system from outside, and what came of it. */
  datatype Call = Arm(c: Callout, toTicks: Int32) | Cancel(c: Callout) | Clock | Tick(h: Handlers)
  datatype Outcome = Returned(r: int) | Ran(runs: seq<Run>)
  datatype Clocked = Clocked(due: Due, soft: int, now: int)

  /** The plain map's reading of one call. */
  ghost predicate Step(s: Clocked, call: Call, outcome: Outcome, s': Clocked) {
    match call
    case Arm(c, n) =>
      && s' == s.(due := s.due[c := s.now + if 0 < n then n else 1])
      && outcome == Returned(if c in s.due then 1 else 0)
    case Cancel(c) =>
      && s' == s.(due := s.due - {c})
      && outcome == Returned(if c in s.due then 1 else -1)
    case Clock =>
      s' == s.(now := s.now + 1)
    case Tick(h) =>
      && outcome.Ran?
      && if s.now - s.soft <= 0x8000_0000 then
           && Complete(s.due, outcome.runs, s.now, s'.due) && FromHandlers(outcome.runs, h)
           && s'.soft == s.now && s'.now == s.now
         else outcome.runs == [] && s' == s
  }

  /** The backlog after a call, and calls that never let it reach 2^32. */
  function PacedStep(call: Call, backlog: int): int {
    match call
    case Clock => backlog + 1
    case Tick(_) => if backlog <= 0x8000_0000 then 0 else backlog
    case _ => backlog
  }

  predicate Paced(calls: seq<Call>, backlog: int) {
    calls == [] || (backlog < 0x1_0000_0000 && Paced(calls[1..], PacedStep(calls[0], backlog)))
  }

  class CalloutCpu {
    const wheel: array<seq<Callout>>
    const shift: nat
    var cTime: map<Callout, int>
    var pending: set<Callout>
    var active: set<Callout>
    var softticks: int
    var ticks: int
    var next: Option<Callout>
    var bucket: nat

    ghost var due: Due
    ghost var soft: int
    ghost var now: int

    /** The lists, the cursor and the 32-bit fields agree with the map from callout to due tick. */
    ghost predicate Lists()
      reads this, wheel
    {
      && shift <= 32
      && soft <= now && softticks == soft % WORD && ticks == now % WORD
      && Placed(wheel[..], due, shift)
      && (forall c | c in due :: c in cTime && cTime[c] == due[c] % WORD && due[c] < now + HALF)
      && bucket < wheel.Length && (next.Some? ==> next.value in wheel[bucket])
    }

    ghost predicate Shape()
      reads this, wheel
    {
      Lists() && pending == due.Keys <= active
    }

    ghost predicate Valid()
      reads this, wheel
    {
      Shape() && NoneBefore(due, soft)
    }

    /** What the scan cursor still has in front of it. */
    ghost function Ahead(): seq<Callout>
      reads this, wheel
      requires bucket < wheel.Length
    {
      From(wheel[bucket], next)
    }

    constructor (ncallout: nat, startTicks: nat)
      requires ncallout < HALF
      ensures Valid() && fresh(wheel)
      ensures due == map[] && soft == 0 && now == startTicks
      ensures ncallout < wheel.Length
    {
      WheelFits(ncallout);
      shift := Fls(ncallout);
      wheel := new seq<Callout>[Pow2(Fls(ncallout))](_ => []);
      cTime, pending, active := map[], {}, {};
      softticks, ticks := 0, startTicks % WORD;
      next, bucket := None, 0;
      due, soft, now := map[], 0, startTicks;
    }

    /** The clock interrupt's increment of ticks. */
    method Hardclock()
      requires Valid()
      modifies this`ticks, this`now
      ensures Valid() && now == old(now) + 1
    {
      AddTicks(now, 1);
      ticks := (ticks + 1) % WORD;
      now := now + 1;
    }

    /** Take c off its list, moving the cursor on first if it stands at c. */
    method Unlink(c: Callout)
      requires Lists() && c in due
      modifies this`next, this`due, wheel
      ensures Lists() && due == old(due) - {c}
      ensures forall x | x in old(Ahead()) && x != c :: x in Ahead()
    {
      BucketOfTick(due[c], shift);
      var b := LowBits(cTime[c], shift);
      assert b == LowBits(due[c], shift) && c in wheel[..][b];
      if bucket == b { CursorSurvives(wheel[b], c, next); }
      PlaceRemove(wheel[..], due, shift, c);
      next := CursorOff(wheel[b], c, next);
      wheel[b] := Remove(wheel[b], c);
      due := due - {c};
      assert wheel[..] == old(wheel[..])[b := Remove(old(wheel[..])[b], c)];
    }

    /** Put c at the head of its list; the cursor moves to it when that list is
        the one under scan. */
    method LinkHead(c: Callout, ghost tick: int)
      requires Lists() && c !in due && c in cTime && cTime[c] == tick % WORD && tick < now + HALF
      modifies this`next, this`due, wheel
      ensures Lists() && due == old(due)[c := tick]
      ensures next == if LowBits(tick, shift) == bucket then Some(c) else old(next)
      ensures forall x | x in old(Ahead()) :: x in Ahead()
    {
      BucketOfTick(tick, shift);
      var b := LowBits(cTime[c], shift);
      if bucket == b { LinkAtHead(wheel[b], c, next); }
      PlaceAdd(wheel[..], due, shift, c, tick);
      wheel[b] := [c] + wheel[b];
      due := due[c := tick];
      if bucket == b {
        next := Some(c);
      }
      assert wheel[..] == old(wheel[..])[b := [c] + old(wheel[..])[b]];
    }

    /** callout_cc_add */
    method CcAdd(c: Callout, toTicks: Int32)
      requires Shape() && c !in due && 0 < toTicks
      modifies this`cTime, this`pending, this`active, this`next, this`due, wheel
      ensures Shape() && due == old(due)[c := now + toTicks]
      ensures active == old(active) + {c}
      ensures next == if LowBits(now + toTicks, shift) == bucket then Some(c) else old(next)
      ensures forall x | x in old(Ahead()) :: x in Ahead()
    {
      pending, active := pending + {c}, active + {c};
      AddTicks(now, toTicks);
      cTime := cTime[c := (ticks + toTicks) % WORD];
      LinkHead(c, now + toTicks);
    }

    /** callout_reset_tick_on */
    method CalloutReset(c: Callout, toTicks: Int32) returns (cancelled: int)
      requires Shape()
      modifies this`cTime, this`pending, this`active, this`next, this`due, wheel
      ensures Shape() && due == old(due)[c := now + if 0 < toTicks then toTicks else 1]
      ensures cancelled == if c in old(due) then 1 else 0
      ensures c in active
      ensures forall x | x in old(Ahead()) && x != c :: x in Ahead()
    {
      cancelled := 0;
      if c in pending {
        Unlink(c);
        cancelled := 1;
        pending, active := pending - {c}, active - {c};
      }
      assert due == old(due) - {c};
      CcAdd(c, if toTicks <= 0 then 1 else toTicks);
    }

    /** _callout_stop_safe without CS_DRAIN */
    method CalloutStop(c: Callout) returns (cancelled: int)
      requires Shape()
      modifies this`pending, this`active, this`next, this`due, wheel
      ensures Shape() && due == old(due) - {c}
      ensures cancelled == if c in old(due) then 1 else -1
      ensures active == if c in old(due) then old(active) - {c} else old(active)
      ensures forall x | x in old(Ahead()) && x != c :: x in Ahead()
    {
      if c !in pending {
        assert due - {c} == due;
        return -1;
      }
      pending, active := pending - {c}, active - {c};
      Unlink(c);
      cancelled := 1;
    }

    /** A handler: any finite sequence of reset and stop calls, on any callouts. */
    method RunHandler(ops: seq<Op>)
      requires Shape()
      modifies this`cTime, this`pending, this`active, this`next, this`due, wheel
      ensures Shape() && due == ApplyOps(old(due), ops, now)
      ensures forall x | x in old(Ahead()) && !Touches(ops, x) :: x in Ahead()
    {
      var k := 0;
      assert ops[..0] == [];
      while k < |ops|
        invariant k <= |ops|
        invariant Shape() && due == ApplyOps(old(due), ops[..k], now)
        invariant forall x | x in old(Ahead()) && !Touches(ops, x) :: x in Ahead()
      {
        var r: int;
        assert ops[..k + 1][..k] == ops[..k];
        match ops[k] {
          case Reset(c, n) => r := CalloutReset(c, n);
          case Stop(c) => r := CalloutStop(c);
        }
        k := k + 1;
      }
      assert ops[..k] == ops;
    }

    /** softclock_call_cc: the callout is off its list and about to run. */
    method SoftclockCallCc(c: Callout, ops: seq<Op>)
      requires Lists() && c !in due && pending == due.Keys + {c} <= active
      modifies this`cTime, this`pending, this`active, this`next, this`due, wheel
      ensures Shape() && due == ApplyOps(old(due), ops, now)
      ensures forall x | x in old(Ahead()) && !Touches(ops, x) :: x in Ahead()
    {
      pending := pending - {c};
      RunHandler(ops);
    }

    ghost predicate Scanned(b: nat, c: Option<Callout>, tick: int)
      reads this, wheel
      requires b < wheel.Length
    {
      && (c.Some? ==> c.value in wheel[b])
      && (forall x | x in due && due[x] == tick :: x in From(wheel[b], c))
    }

    ghost function DueAt(tick: int): set<Callout>
      reads this
    {
      set x | x in due && due[x] == tick
    }

    /** Point the cursor past c, remember the bucket under scan, and take c off its list. */
    method TakeDue(c: Callout, b: nat, ghost tick: int)
      requires Shape() && c in due && due[c] == tick
      requires b == LowBits(tick, shift) && Scanned(b, Some(c), tick)
      modifies this`next, this`bucket, this`due, wheel
      ensures Lists() && due == old(due) - {c} && bucket == b
      ensures forall x | x in due && due[x] == tick :: x in Ahead()
    {
      CursorLeaves(wheel[b], c);
      PlaceRemove(wheel[..], due, shift, c);
      next := Next(wheel[b], c);
      bucket := b;
      wheel[b] := Remove(wheel[b], c);
      assert wheel[..] == old(wheel[..])[b := Remove(old(wheel[..])[b], c)];
      due := due - {c};
    }

    method TakeCursor() returns (c: Option<Callout>)
      requires Shape()
      modifies this`next
      ensures Shape() && c == old(next) && next == None
    {
      c := next;
      next := None;
    }

    /** Fire c, which is due at the tick under scan, and leave the cursor where
        the scan goes on; nothing due at that tick is left behind it. */
    method Fire(c: Callout, b: nat, ops: seq<Op>, ghost tick: int) returns (c': Option<Callout>)
      requires Shape() && c in due && due[c] == tick < now && NoneBefore(due, tick)
      requires b == LowBits(tick, shift) && Scanned(b, Some(c), tick)
      modifies this`cTime, this`pending, this`active, this`next, this`bucket, this`due, wheel
      ensures Shape() && NoneBefore(due, tick) && Scanned(b, c', tick)
      ensures due == ApplyOps(old(due) - {c}, ops, now)
      ensures DueAt(tick) < old(DueAt(tick))
    {
      TakeDue(c, b, tick);
      ghost var d := due;
      label Taken:
      SoftclockCallCc(c, ops);
      OpsAddOnlyLater(d, ops, now);
      assert forall x | x in due && due[x] == tick :: x in old@Taken(Ahead());
      c' := TakeCursor();
      assert c in old(DueAt(tick)) && c !in DueAt(tick);
    }

    /** The handler calls so far, made from the map d0, account for the present map. */
    ghost predicate Accounted(d0: Due, runs: seq<Run>, h: Handlers)
      reads this
    {
      Legal(d0, runs, now) && due == After(d0, runs, now) && FromHandlers(runs, h)
    }

    /** Fire c and record the handler call. */
    method FireNext(c: Callout, b: nat, ghost tick: int, h: Handlers, before: seq<Run>, ghost d0: Due)
      returns (c': Option<Callout>, runs: seq<Run>)
      requires Shape() && NoneBefore(due, tick) && Accounted(d0, before, h)
      requires c in due && due[c] == tick < now && b == LowBits(tick, shift) && Scanned(b, Some(c), tick)
      modifies this`cTime, this`pending, this`active, this`next, this`bucket, this`due, wheel
      ensures Shape() && NoneBefore(due, tick) && Accounted(d0, runs, h)
      ensures Scanned(b, c', tick) && DueAt(tick) < old(DueAt(tick))
    {
      var r := Run(c, h(before, c));
      LegalSnoc(d0, before, r, now);
      AfterSnoc(d0, before, r, now);
      HandlersSnoc(before, r, h);
      c' := Fire(c, b, r.ops, tick);
      runs := before + [r];
    }

    lemma StartScan(b: nat, tick: int)
      requires Shape() && b < wheel.Length && b == LowBits(tick, shift)
      ensures Scanned(b, First(wheel[b]), tick)
    {
      var c := First(wheel[b]);
      assert c.Some? ==> From(wheel[b], c) == wheel[b];
      assert forall x | x in due && due[x] == tick :: x in wheel[..][b];
    }

    /** A callout of this list is due now exactly if its 32-bit time says so. */
    lemma TickTest(c: Callout, b: nat, tick: int)
      requires Shape() && b < wheel.Length && c in wheel[b] && NoneBefore(due, tick) && 0 < now - tick <= HALF
      ensures c in due && c in cTime && (cTime[c] == tick % WORD <==> due[c] == tick)
    {
      assert c in wheel[..][b];
      SameTick(due[c], tick);
    }

    lemma SkipKeepsScan(c: Callout, b: nat, tick: int)
      requires Shape() && b < wheel.Length && Scanned(b, Some(c), tick) && c in due && due[c] != tick
      ensures Scanned(b, Next(wheel[b], c), tick)
      ensures |From(wheel[b], Next(wheel[b], c))| < |From(wheel[b], Some(c))|
    {
      FromNext(wheel[b], c);
    }

    /** The inner loop of softclock: scan the bucket of one tick to its end. */
    method ScanBucket(curticks: int, ghost tick: int, h: Handlers, before: seq<Run>, ghost d0: Due)
      returns (runs: seq<Run>)
      requires Shape() && NoneBefore(due, tick) && Accounted(d0, before, h)
      requires curticks == tick % WORD && 0 < now - tick <= HALF
      modifies this`cTime, this`pending, this`active, this`next, this`bucket, this`due, wheel
      ensures Shape() && NoneBefore(due, tick + 1) && Accounted(d0, runs, h)
    {
      runs := before;
      BucketOfTick(tick, shift);
      var b := LowBits(curticks, shift);
      var c := First(wheel[b]);
      StartScan(b, tick);
      while c.Some?
        invariant Shape() && NoneBefore(due, tick) && Accounted(d0, runs, h)
        invariant Scanned(b, c, tick)
        decreases DueAt(tick), |From(wheel[b], c)|
      {
        TickTest(c.value, b, tick);
        if cTime[c.value] != curticks {
          SkipKeepsScan(c.value, b, tick);
          c := Next(wheel[b], c.value);
        } else {
          c, runs := FireNext(c.value, b, tick, h, runs, d0);
        }
      }
    }

    /** cc_softticks++ */
    method StepSoftticks()
      requires Shape() && soft < now && now - soft < WORD
      modifies this`softticks, this`soft
      ensures Shape() && soft == old(soft) + 1
      ensures Negative32(softticks - ticks) <==> 0 < now - soft <= HALF
      ensures softticks == ticks <==> soft == now
    {
      AddTicks(soft, 1);
      BehindTest(soft + 1, now);
      softticks := (softticks + 1) % WORD;
      soft := soft + 1;
    }

    /** softclock: catch up with the clock, one bucket per tick. */
    method Softclock(h: Handlers) returns (runs: seq<Run>)
      requires Valid() && now - soft <= HALF
      modifies this, wheel
      ensures Valid() && now == old(now) && soft == now && softticks == ticks
      ensures Complete(old(due), runs, now, due) && FromHandlers(runs, h)
    {
      runs := [];
      BehindTest(soft, now);
      while softticks != ticks
        invariant Valid() && now == old(now) && now - soft <= HALF
        invariant softticks == ticks <==> soft == now
        invariant Accounted(old(due), runs, h)
        decreases now - soft
      {
        var curticks := softticks;
        ghost var tick := soft;
        StepSoftticks();
        runs := ScanBucket(curticks, tick, h, runs, old(due));
      }
    }

    /** callout_tick. With a backlog of at most 2^31 ticks it catches up
        completely; with a larger one, below 2^32, its loop test fails at once
        and it does nothing. */
    method CalloutTick(h: Handlers) returns (runs: seq<Run>)
      requires Valid() && now - soft < 0x1_0000_0000
      modifies this, wheel
      ensures Valid() && now == old(now)
      ensures old(now - soft) <= 0x8000_0000 ==>
                soft == now && softticks == ticks && Complete(old(due), runs, now, due) && FromHandlers(runs, h)
      ensures old(now - soft) > 0x8000_0000 ==> runs == [] && due == old(due) && soft == old(soft)
    {
      var needSoftclock := false;
      BehindTest(soft, now);
      while Negative32(softticks - ticks)
        invariant Valid() && now == old(now) && due == old(due)
        invariant old(now - soft) <= HALF ==> now - soft <= HALF
        invariant old(now - soft) > HALF ==> soft == old(soft)
        invariant Negative32(softticks - ticks) <==> 0 < now - soft <= HALF
        invariant softticks == ticks <==> soft == now
        decreases now - soft
      {
        BucketOfTick(soft, shift);
        var b := LowBits(softticks, shift);
        if wheel[b] != [] {
          needSoftclock := true;
          break;
        }
        assert forall c | c in due :: due[c] != soft by {
          assert wheel[..][b] == [];
        }
        StepSoftticks();
      }
      if needSoftclock {
        runs := Softclock(h);
      } else {
        runs := [];
      }
    }

    /** A callout is pending exactly when it is on some bucket list; it is then
        on the list of its own due tick only, and there once. */
    lemma PendingIsOnItsList(c: Callout)
      requires Shape()
      ensures c in pending <==> exists b | 0 <= b < wheel.Length :: c in wheel[b]
      ensures c in pending ==> c in cTime && c in active
      ensures forall b | 0 <= b < wheel.Length && c in wheel[b] ::
                c in cTime && b == LowBits(cTime[c], shift) && multiset(wheel[b])[c] == 1
    {
      if c in due {
        BucketOfTick(due[c], shift);
        assert c in wheel[..][LowBits(due[c], shift)];
      }
      forall b | 0 <= b < wheel.Length && c in wheel[b]
        ensures c in due && b == LowBits(due[c], shift) && multiset(wheel[b])[c] == 1
      {
        assert c in wheel[..][b];
        OnceInList(wheel[b], c);
      }
    }

    ghost function Abs(): Clocked
      reads this
    {
      Clocked(due, soft, now)
    }

    /** One call of a history. */
    method DriveOne(call: Call) returns (outcome: Outcome)
      requires Valid() && now - soft < WORD
      modifies this, wheel
      ensures Valid() && Step(old(Abs()), call, outcome, Abs())
      ensures now - soft == PacedStep(call, old(now - soft))
    {
      match call {
        case Arm(c, n) =>
          var r := CalloutReset(c, n);
          outcome := Returned(r);
        case Cancel(c) =>
          var r := CalloutStop(c);
          outcome := Returned(r);
        case Clock =>
          Hardclock();
          outcome := Returned(0);
        case Tick(h) =>
          var runs := CalloutTick(h);
          outcome := Ran(runs);
      }
    }

    /** Any history of reset, stop, clock and callout_tick calls, as long as the
        backlog stays below 2^32 ticks, is a history of the plain map. */
    method Drive(calls: seq<Call>) returns (outcomes: seq<Outcome>, ghost states: seq<Clocked>)
      requires Valid() && Paced(calls, now - soft)
      modifies this, wheel
      ensures Valid()
      ensures |outcomes| == |calls| && |states| == |calls| + 1
      ensures states[0] == old(Abs()) && states[|calls|] == Abs()
      ensures forall i | 0 <= i < |calls| :: Step(states[i], calls[i], outcomes[i], states[i + 1])
    {
      outcomes, states := [], [Abs()];
      var k := 0;
      while k < |calls|
        invariant k <= |calls| && Valid() && Paced(calls[k..], now - soft)
        invariant |outcomes| == k && |states| == k + 1
        invariant states[0] == old(Abs()) && states[k] == Abs()
        invariant forall i | 0 <= i < k :: Step(states[i], calls[i], outcomes[i], states[i + 1])
      {
        var outcome := DriveOne(calls[k]);
        assert calls[k..][1..] == calls[k + 1..];
        outcomes, states := outcomes + [outcome], states + [Abs()];
        k := k + 1;
      }
    }
  }
}
