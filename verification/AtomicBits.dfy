/** atomic_testandset_long and atomic_testandclear_long run by any number of
    threads on one shared word, interleaved at every load and every
    compare-and-set, with compare-and-set allowed to fail for no reason. */
module AtomicBits {
  import opened Bits

  type Tid = nat

  /** sets: test-and-set, otherwise test-and-clear. */
  datatype Op = Op(sets: bool, bit: nat)

  /** Where a thread stands in its call. Finished remembers the value returned
      and which entry of the log the call left. */
  datatype Thread = Called(op: Op) | Looping(op: Op, seen: nat) | Finished(op: Op, ret: bool, at: nat)

  /** A call that has taken effect: which, and the bit it found. */
  datatype Event = Event(tid: Tid, op: Op, was: bool)

  datatype State = State(word: nat, threads: map<Tid, Thread>, log: seq<Event>)

  function Apply(op: Op, w: nat): nat {
    if op.sets then SetBit(w, op.bit) else ClearBit(w, op.bit)
  }

  /** The loop test on the value last read: is there anything left to do? */
  predicate Wants(op: Op, seen: nat) {
    Bit(seen, op.bit) != op.sets
  }

  /** A thread that is not in a call starts one with argument v. */
  ghost predicate Call(s: State, t: Tid, sets: bool, v: nat, s': State) {
    && (t in s.threads ==> s.threads[t].Finished?)
    && s' == s.(threads := s.threads[t := Called(Op(sets, v % 64))])
  }

  /** After reading the word: leave the loop or go round it. */
  function AfterRead(s: State, t: Tid, op: Op): State {
    if Wants(op, s.word) then s.(threads := s.threads[t := Looping(op, s.word)])
    else
      var found := Bit(s.word, op.bit);
      s.(threads := s.threads[t := Finished(op, found, |s.log|)], log := s.log + [Event(t, op, found)])
  }

  ghost predicate Read(s: State, t: Tid, s': State) {
    t in s.threads && s.threads[t].Called? && s' == AfterRead(s, t, s.threads[t].op)
  }

  /** atomic_fcmpset_long: on failure the expected value is refreshed. */
  ghost predicate CompareAndSet(s: State, t: Tid, spurious: bool, s': State) {
    && t in s.threads && s.threads[t].Looping?
    && var op, seen := s.threads[t].op, s.threads[t].seen;
       if s.word == seen && !spurious then
         s' == State(Apply(op, seen),
                     s.threads[t := Finished(op, !op.sets, |s.log|)],
                     s.log + [Event(t, op, Bit(seen, op.bit))])
       else s' == AfterRead(s, t, op)
  }

  ghost predicate Step(s: State, s': State) {
    || (exists t: Tid, sets: bool, v: nat :: Call(s, t, sets, v, s'))
    || (exists t: Tid :: Read(s, t, s'))
    || (exists t: Tid, spurious: bool :: CompareAndSet(s, t, spurious, s'))
  }

  ghost predicate Run(ss: seq<State>) {
    && ss != [] && ss[0].threads == map[] && ss[0].log == []
    && forall i | 0 <= i < |ss| - 1 :: Step(ss[i], ss[i + 1])
  }

  // ----- the sequential meaning of a log

  function Replay(w: nat, log: seq<Event>): nat {
    if log == [] then w else Apply(log[|log| - 1].op, Replay(w, log[..|log| - 1]))
  }

  /** Done one after the other, each call finds the bit the log says. */
  ghost predicate Sequential(w: nat, log: seq<Event>) {
    forall k | 0 <= k < |log| :: log[k].was == Bit(Replay(w, log[..k]), log[k].op.bit)
  }

  lemma SequentialSnoc(w: nat, log: seq<Event>, e: Event)
    requires Sequential(w, log) && e.was == Bit(Replay(w, log), e.op.bit)
    ensures Sequential(w, log + [e]) && Replay(w, log + [e]) == Apply(e.op, Replay(w, log))
  {
    var all := log + [e];
    assert all[..|log|] == log;
    forall k | 0 <= k < |all| ensures all[k].was == Bit(Replay(w, all[..k]), all[k].op.bit) {
      if k < |log| { assert all[..k] == log[..k]; }
    }
  }

  /** A looping thread always expects a value whose bit it would change. */
  ghost predicate Inv(w: nat, s: State) {
    && Sequential(w, s.log) && Replay(w, s.log) == s.word
    && (forall t | t in s.threads && s.threads[t].Looping? :: Wants(s.threads[t].op, s.threads[t].seen))
    && (forall t | t in s.threads && s.threads[t].Finished? ::
          var th := s.threads[t];
          th.at < |s.log| && s.log[th.at] == Event(t, th.op, th.ret))
  }

  lemma IdleApply(op: Op, w: nat)
    requires !Wants(op, w)
    ensures Apply(op, w) == w
  {
    if op.sets { SetPresent(w, op.bit); } else { ClearAbsent(w, op.bit); }
  }

  lemma ReadKeepsInv(w: nat, s: State, t: Tid, op: Op)
    requires Inv(w, s)
    ensures Inv(w, AfterRead(s, t, op))
  {
    if !Wants(op, s.word) {
      IdleApply(op, s.word);
      SequentialSnoc(w, s.log, Event(t, op, Bit(s.word, op.bit)));
    }
  }

  lemma CallKeepsInv(w: nat, s: State, t: Tid, op: Op)
    requires Inv(w, s)
    ensures Inv(w, s.(threads := s.threads[t := Called(op)]))
  {
  }

  /** A successful compare-and-set: the bit was as the loop test found it. */
  lemma SwapKeepsInv(w: nat, s: State, t: Tid, op: Op)
    requires Inv(w, s) && Wants(op, s.word)
    ensures Inv(w, State(Apply(op, s.word), s.threads[t := Finished(op, !op.sets, |s.log|)],
                         s.log + [Event(t, op, !op.sets)]))
  {
    SequentialSnoc(w, s.log, Event(t, op, !op.sets));
  }

  lemma StepKeepsInv(w: nat, s: State, s': State)
    requires Inv(w, s) && Step(s, s')
    ensures Inv(w, s') && s.log <= s'.log
  {
    if t: Tid, sets: bool, v: nat :| Call(s, t, sets, v, s') {
      CallKeepsInv(w, s, t, Op(sets, v % 64));
    } else if t: Tid :| Read(s, t, s') {
      ReadKeepsInv(w, s, t, s.threads[t].op);
    } else {
      var t: Tid, spurious: bool :| CompareAndSet(s, t, spurious, s');
      var op := s.threads[t].op;
      if s.word == s.threads[t].seen && !spurious {
        SwapKeepsInv(w, s, t, op);
      } else {
        ReadKeepsInv(w, s, t, op);
      }
    }
  }

  /** In every run of every number of threads, the log of calls in the order
      they took effect is a sequential history that ends in the present word,
      and every finished call returned the bit it found at that point. */
  lemma {:induction false} RunIsLinear(ss: seq<State>, k: nat)
    requires Run(ss) && k < |ss|
    ensures Inv(ss[0].word, ss[k])
  {
    if k > 0 {
      RunIsLinear(ss, k - 1);
      assert Step(ss[k - 1], ss[k - 1 + 1]);
      StepKeepsInv(ss[0].word, ss[k - 1], ss[k]);
    }
  }

  /** A call takes effect while it is in progress: its log entry is made by one
      of the thread's own steps, the one that finishes the call. */
  lemma TakesEffectWhenFinishing(w: nat, s: State, s': State, t: Tid)
    requires Inv(w, s) && Step(s, s') && t in s'.threads && s'.threads[t].Finished?
    requires t !in s.threads || s.threads[t] != s'.threads[t]
    ensures t in s.threads && !s.threads[t].Finished? && s'.threads[t].at == |s.log|
    ensures s'.log == s.log + [Event(t, s.threads[t].op, s'.threads[t].ret)]
    ensures s'.threads[t].ret == Bit(s.word, s.threads[t].op.bit)
  {
    if u: Tid, sets: bool, v: nat :| Call(s, u, sets, v, s') {
    } else if u: Tid :| Read(s, u, s') {
    } else {
      var u: Tid, spurious: bool :| CompareAndSet(s, u, spurious, s');
    }
  }

  /** In the middle of its call a thread goes on with the same bit. */
  lemma OpStays(s: State, s': State, t: Tid)
    requires Step(s, s') && t in s.threads && !s.threads[t].Finished?
    ensures t in s'.threads && s'.threads[t].op == s.threads[t].op
  {
    if u: Tid, sets: bool, v: nat :| Call(s, u, sets, v, s') {
    } else if u: Tid :| Read(s, u, s') {
    } else {
      var u: Tid, spurious: bool :| CompareAndSet(s, u, spurious, s');
    }
  }

  lemma {:induction false} OpStaysAlong(ss: seq<State>, t: Tid, i: nat, k: nat)
    requires Run(ss) && i <= k < |ss| && t in ss[i].threads
    requires forall n | i <= n < k :: t in ss[n].threads && !ss[n].threads[t].Finished?
    ensures t in ss[k].threads && ss[k].threads[t].op == ss[i].threads[t].op
  {
    if i < k {
      OpStaysAlong(ss, t, i, k - 1);
      assert Step(ss[k - 1], ss[k - 1 + 1]);
      OpStays(ss[k - 1], ss[k], t);
    }
  }

  lemma BitAfter(op: Op, w: nat, b: nat)
    ensures Bit(Apply(op, w), b) == if op.bit == b then op.sets else Bit(w, b)
  {
    if op.sets { BitOfSet(w, op.bit, b); } else { BitOfClear(w, op.bit, b); }
  }

  lemma FinishWrites(w: nat, s: State, s': State, t: Tid, b: nat)
    requires Inv(w, s) && Step(s, s') && t in s.threads && !s.threads[t].Finished?
    requires t in s'.threads && s'.threads[t].Finished?
    ensures var op := s.threads[t].op;
            && s'.threads[t].ret == Bit(s.word, op.bit)
            && Bit(s'.word, b) == if b == op.bit then op.sets else Bit(s.word, b)
  {
    TakesEffectWhenFinishing(w, s, s', t);
    BitAfter(s.threads[t].op, s.word, b);
  }

  /** From its call with argument v to the step that finishes it, whatever other
      threads do in between: the call returns bit v modulo 64 of the word as it
      is just before that step, and the step sets or clears this bit and leaves
      every other one alone. */
  lemma CallActsOnItsBit(ss: seq<State>, t: Tid, sets: bool, v: nat, i: nat, k: nat, b: nat)
    requires Run(ss) && i < k < |ss| - 1 && Call(ss[i], t, sets, v, ss[i + 1])
    requires forall n | i < n <= k :: t in ss[n].threads && !ss[n].threads[t].Finished?
    requires t in ss[k + 1].threads && ss[k + 1].threads[t].Finished?
    ensures ss[k + 1].threads[t].ret == Bit(ss[k].word, v % 64)
    ensures Bit(ss[k + 1].word, b) == if b == v % 64 then sets else Bit(ss[k].word, b)
  {
    OpStaysAlong(ss, t, i + 1, k);
    RunIsLinear(ss, k);
    assert Step(ss[k], ss[k + 1]);
    FinishWrites(ss[0].word, ss[k], ss[k + 1], t, b);
  }

  // ----- what follows for one bit

  /** The call changed the bit. */
  predicate Wins(e: Event, sets: bool, b: nat) {
    e.op == Op(sets, b) && e.was != sets
  }

  function Count(log: seq<Event>, sets: bool, b: nat): nat {
    if log == [] then 0
    else Count(log[..|log| - 1], sets, b) + if Wins(log[|log| - 1], sets, b) then 1 else 0
  }

  function AsNumber(x: bool): int {
    if x then 1 else 0
  }

  lemma SequentialPrefix(w: nat, log: seq<Event>, k: nat)
    requires Sequential(w, log) && k <= |log|
    ensures Sequential(w, log[..k])
  {
    forall i | 0 <= i < k ensures log[..k][i].was == Bit(Replay(w, log[..k][..i]), log[..k][i].op.bit) {
      assert log[..k][..i] == log[..i];
    }
  }

  /** Each bit is its initial value plus the winning sets minus the winning clears. */
  lemma {:induction false} BitIsBalance(w: nat, log: seq<Event>, b: nat)
    requires Sequential(w, log)
    ensures AsNumber(Bit(Replay(w, log), b)) == AsNumber(Bit(w, b)) + Count(log, true, b) - Count(log, false, b)
  {
    if log != [] {
      var n := |log| - 1;
      SequentialPrefix(w, log, n);
      BitIsBalance(w, log[..n], b);
      BitAfter(log[n].op, Replay(w, log[..n]), b);
    }
  }

  /** In every state of every run each bit of the word is that balance. */
  lemma RunBalance(ss: seq<State>, k: nat, b: nat)
    requires Run(ss) && k < |ss|
    ensures AsNumber(Bit(ss[k].word, b)) ==
            AsNumber(Bit(ss[0].word, b)) + Count(ss[k].log, true, b) - Count(ss[k].log, false, b)
  {
    RunIsLinear(ss, k);
    BitIsBalance(ss[0].word, ss[k].log, b);
  }

  lemma ReplayOne(w: nat, log: seq<Event>, j: nat, b: nat)
    requires 0 < j <= |log|
    ensures Bit(Replay(w, log[..j]), b) ==
            if log[j - 1].op.bit == b then log[j - 1].op.sets else Bit(Replay(w, log[..j - 1]), b)
  {
    assert log[..j][..j - 1] == log[..j - 1] && log[..j][j - 1] == log[j - 1];
    BitAfter(log[j - 1].op, Replay(w, log[..j - 1]), b);
  }

  /** A call that does not win leaves the bit as it is. */
  lemma LoserKeeps(w: nat, log: seq<Event>, j: nat, b: nat)
    requires Sequential(w, log) && j < |log| && !Wins(log[j], log[j].op.sets, b)
    ensures Bit(Replay(w, log[..j + 1]), b) == Bit(Replay(w, log[..j]), b)
  {
    ReplayOne(w, log, j + 1, b);
    assert log[j].was == Bit(Replay(w, log[..j]), log[j].op.bit);
    assert log[j].op == Op(log[j].op.sets, log[j].op.bit);
  }

  lemma {:induction false} BitStays(w: nat, log: seq<Event>, b: nat, i: nat, j: nat)
    requires Sequential(w, log) && i < j <= |log| && log[i].op.bit == b
    requires forall k | i < k < j :: !Wins(log[k], log[k].op.sets, b)
    ensures Bit(Replay(w, log[..j]), b) == log[i].op.sets
  {
    if j == i + 1 {
      ReplayOne(w, log, j, b);
    } else {
      BitStays(w, log, b, i, j - 1);
      LoserKeeps(w, log, j - 1, b);
    }
  }

  /** Winners on one bit alternate between set and clear. */
  lemma WinnersAlternate(w: nat, log: seq<Event>, b: nat, i: nat, j: nat)
    requires Sequential(w, log) && i < j < |log|
    requires log[i].op.bit == b == log[j].op.bit && Wins(log[i], log[i].op.sets, b) && Wins(log[j], log[j].op.sets, b)
    requires forall k | i < k < j :: !Wins(log[k], log[k].op.sets, b)
    ensures log[i].op.sets != log[j].op.sets
  {
    BitStays(w, log, b, i, j);
  }

  lemma {:induction false} NoClears(log: seq<Event>, b: nat)
    requires forall e | e in log :: e.op != Op(false, b)
    ensures Count(log, false, b) == 0
  {
    if log != [] { NoClears(log[..|log| - 1], b); }
  }

  lemma {:induction false} CountPrefix(log: seq<Event>, b: nat, i: nat)
    requires i <= |log|
    ensures Count(log[..i], true, b) <= Count(log, true, b)
    decreases |log|
  {
    if i == |log| {
      assert log[..i] == log;
    } else {
      CountPrefix(log[..|log| - 1], b, i);
      assert log[..|log| - 1][..i] == log[..i];
    }
  }

  lemma {:induction false} NoWinner(log: seq<Event>, b: nat, i: nat)
    requires Count(log, true, b) == 0 && i < |log|
    ensures !Wins(log[i], true, b)
    decreases |log|
  {
    if i < |log| - 1 { NoWinner(log[..|log| - 1], b, i); }
  }

  /** Of any number of setters racing for a clear bit that nobody clears,
      exactly one is told that the bit was clear. */
  lemma OneSetterWins(w: nat, log: seq<Event>, b: nat, i: nat)
    requires Sequential(w, log) && !Bit(w, b)
    requires forall e | e in log :: e.op != Op(false, b)
    requires i < |log| && log[i].op == Op(true, b)
    ensures Count(log, true, b) == 1
  {
    BitIsBalance(w, log, b);
    NoClears(log, b);
    if Count(log, true, b) == 0 {
      NoWinner(log, b, i);
      SequentialPrefix(w, log, i);
      BitIsBalance(w, log[..i], b);
      NoClears(log[..i], b);
      CountPrefix(log, b, i);
      assert false;
    }
  }

  lemma {:induction false} TwoWinners(log: seq<Event>, b: nat, i: nat, j: nat)
    requires i < j < |log| && Wins(log[i], true, b) && Wins(log[j], true, b)
    ensures Count(log, true, b) >= 2
    decreases |log|
  {
    var n := |log| - 1;
    if j < n {
      TwoWinners(log[..n], b, i, j);
    } else if Count(log[..n], true, b) == 0 {
      NoWinner(log[..n], b, i);
      assert false;
    }
  }

  // ----- over runs

  /** In every run, of two successive winners on a bit one set it and the other cleared it. */
  lemma RunWinnersAlternate(ss: seq<State>, k: nat, b: nat, i: nat, j: nat)
    requires Run(ss) && k < |ss| && i < j < |ss[k].log|
    requires var log := ss[k].log;
             && log[i].op.bit == b == log[j].op.bit && Wins(log[i], log[i].op.sets, b) && Wins(log[j], log[j].op.sets, b)
             && forall n | i < n < j :: !Wins(log[n], log[n].op.sets, b)
    ensures ss[k].log[i].op.sets != ss[k].log[j].op.sets
  {
    RunIsLinear(ss, k);
    WinnersAlternate(ss[0].word, ss[k].log, b, i, j);
  }

  /** The thread's last call was a set of bit b that returned this. */
  ghost predicate SetReturned(s: State, t: Tid, b: nat, ret: bool) {
    t in s.threads && s.threads[t].Finished? && s.threads[t].op == Op(true, b) && s.threads[t].ret == ret
  }

  /** In every run from a word with bit b clear, as long as nobody has cleared
      it: once some thread's set of it has returned, exactly one set has been
      told that the bit was clear, so two threads so told are the same. */
  lemma RunOneSetterWins(ss: seq<State>, k: nat, b: nat, t: Tid, ret: bool)
    requires Run(ss) && k < |ss| && !Bit(ss[0].word, b)
    requires forall e | e in ss[k].log :: e.op != Op(false, b)
    requires SetReturned(ss[k], t, b, ret)
    ensures Count(ss[k].log, true, b) == 1
    ensures forall u, v | SetReturned(ss[k], u, b, false) && SetReturned(ss[k], v, b, false) :: u == v
  {
    var w, s := ss[0].word, ss[k];
    RunIsLinear(ss, k);
    OneSetterWins(w, s.log, b, s.threads[t].at);
    forall u, v | SetReturned(s, u, b, false) && SetReturned(s, v, b, false) ensures u == v {
      var i, j := s.threads[u].at, s.threads[v].at;
      if i < j {
        TwoWinners(s.log, b, i, j);
      } else if j < i {
        TwoWinners(s.log, b, j, i);
      }
    }
  }
}
