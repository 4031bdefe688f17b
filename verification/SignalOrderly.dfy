/** Runs that keep stack discipline. When each frame fits the stack it is put on
    and user code neither pops nor overwrites live frames, every step spares
    every live frame, so all signals unwind. */
module SignalOrderly {
  import opened SignalFrame
  import opened SignalDelivery
  import opened SignalGeometry
  import opened SignalNesting

  ghost predicate RegionsSame(live: seq<Live>, mem: Memory, mem': Memory) {
    forall i | 0 <= i < |live| :: SameOn(mem, mem', live[i].sfp, live[i].top)
  }

  ghost predicate FittingSend(cfg: Config, st: State, s: Signal, st': State) {
    SendStep(cfg, st, s, st') && Fits(cfg, NewLive(cfg, st.m, s))
  }

  ghost predicate DisciplinedUser(cfg: Config, st: State, st': State) {
    && UserStep(cfg, st, st')
    && Disciplined(cfg, st'.live, st'.m.tf.rsp)
    && RegionsSame(st.live, st.m.mem, st'.m.mem)
  }

  ghost predicate OrderlyStep(cfg: Config, st: State, st': State) {
    (exists s :: FittingSend(cfg, st, s, st')) || DisciplinedUser(cfg, st, st') || ReturnStep(cfg, st, st')
  }

  ghost predicate OrderlyRun(cfg: Config, sts: seq<State>) {
    && |sts| > 0 && UserMode(cfg, sts[0].m) && sts[0].live == [] && Disciplined(cfg, [], sts[0].m.tf.rsp)
    && forall i | 0 <= i < |sts| - 1 :: OrderlyStep(cfg, sts[i], sts[i + 1])
  }

  /** A live frame is intact and acceptable to sys_sigreturn, and was put on top
      of disciplined code. */
  ghost predicate Held(cfg: Config, live: seq<Live>, i: nat, mem: Memory, rflags: Word)
    requires i < |live|
  {
    Intact(mem, live[i]) && Returnable(cfg, live[i], rflags) && Disciplined(cfg, live[..i], live[i].uc.tf.rsp)
  }

  ghost predicate Kept(cfg: Config, live: seq<Live>, mem: Memory, rflags: Word) {
    forall i: nat | i < |live| :: Held(cfg, live, i, mem, rflags)
  }

  ghost predicate Inv(cfg: Config, st: State) {
    && UserMode(cfg, st.m)
    && Nested(cfg, st.live)
    && Disciplined(cfg, st.live, st.m.tf.rsp)
    && Kept(cfg, st.live, st.m.mem, st.m.tf.rflags)
  }

  lemma KeptWhenSame(cfg: Config, live: seq<Live>, mem: Memory, rflags: Word, mem': Memory, rflags': Word)
    requires Kept(cfg, live, mem, rflags) && Nested(cfg, live)
    requires RegionsSame(live, mem, mem') && EflSecure(rflags, rflags')
    ensures Kept(cfg, live, mem', rflags')
  {
    forall i: nat | i < |live| ensures Held(cfg, live, i, mem', rflags') {
      assert Held(cfg, live, i, mem, rflags);
      IntactWhenSame(mem, mem', live[i]);
      EflTransitive(live[i].uc.tf.rflags, rflags, rflags');
    }
  }

  lemma KeptGrows(cfg: Config, live: seq<Live>, l: Live, mem: Memory, rflags: Word)
    requires Kept(cfg, live, mem, rflags)
    requires Intact(mem, l) && Returnable(cfg, l, rflags) && Disciplined(cfg, live, l.uc.tf.rsp)
    ensures Kept(cfg, live + [l], mem, rflags)
  {
    forall i: nat | i < |live + [l]| ensures Held(cfg, live + [l], i, mem, rflags) {
      assert (live + [l])[..i] == live[..i];
      if i < |live| {
        assert Held(cfg, live, i, mem, rflags);
      } else {
        assert live[..i] == live;
      }
    }
  }

  lemma KeptPrefix(cfg: Config, live: seq<Live>, n: nat, mem: Memory, rflags: Word)
    requires Kept(cfg, live, mem, rflags) && n <= |live|
    ensures Kept(cfg, live[..n], mem, rflags)
  {
    forall i: nat | i < n ensures Held(cfg, live[..n], i, mem, rflags) {
      assert Held(cfg, live, i, mem, rflags);
      assert live[..n][..i] == live[..i];
    }
  }

  lemma OldFramesSame(cfg: Config, live: seq<Live>, m: Cpu, s: Signal)
    requires Delivers(cfg, m, s) && Fits(cfg, NewLive(cfg, m, s))
    requires Nested(cfg, live) && Disciplined(cfg, live, m.tf.rsp)
    ensures RegionsSame(live, m.mem, Send(cfg, m, s).m.mem)
  {
    forall i | 0 <= i < |live| ensures SameOn(m.mem, Send(cfg, m, s).m.mem, live[i].sfp, live[i].top) {
      NewFrameApart(cfg, live, m, s, i);
      SendWrites(cfg, m, s, live[i].sfp, live[i].top);
    }
  }

  lemma InvGrows(cfg: Config, live: seq<Live>, m: Cpu, l: Live)
    requires UserMode(cfg, m) && Nested(cfg, live + [l]) && Disciplined(cfg, live + [l], m.tf.rsp)
    requires Kept(cfg, live, m.mem, m.tf.rflags)
    requires Intact(m.mem, l) && Returnable(cfg, l, m.tf.rflags) && Disciplined(cfg, live, l.uc.tf.rsp)
    ensures Inv(cfg, State(m, live + [l]))
  {
    KeptGrows(cfg, live, l, m.mem, m.tf.rflags);
  }

  lemma SendKeepsInv(cfg: Config, st: State, s: Signal, st': State)
    requires Inv(cfg, st) && FittingSend(cfg, st, s, st')
    ensures Inv(cfg, st')
  {
    var m, live := st.m, st.live;
    NewFrameNests(cfg, live, m, s);
    StartsInUserMode(cfg, m, s);
    NewFrameIntact(cfg, m, s);
    NewReturnable(cfg, m, s, st'.m.tf.rflags);
    OldFramesSame(cfg, live, m, s);
    KeptWhenSame(cfg, live, m.mem, m.tf.rflags, st'.m.mem, st'.m.tf.rflags);
    InvGrows(cfg, live, st'.m, NewLive(cfg, m, s));
  }

  lemma UserKeepsInv(cfg: Config, st: State, st': State)
    requires Inv(cfg, st) && DisciplinedUser(cfg, st, st')
    ensures Inv(cfg, st')
  {
    KeptWhenSame(cfg, st.live, st.m.mem, st.m.tf.rflags, st'.m.mem, st'.m.tf.rflags);
  }

  lemma InvShrinks(cfg: Config, live: seq<Live>, m: Cpu, m': Cpu)
    requires live != [] && Nested(cfg, live) && Kept(cfg, live, m.mem, m.tf.rflags)
    requires UserMode(cfg, m') && m'.mem == m.mem && Restores(live[|live| - 1], m')
    ensures Inv(cfg, State(m', live[..|live| - 1]))
  {
    var outer, inner := live[..|live| - 1], live[|live| - 1];
    assert Held(cfg, live, |outer|, m.mem, m.tf.rflags);
    EflTransitive(inner.uc.tf.rflags, m.tf.rflags, m.tf.rflags);
    KeptPrefix(cfg, live, |outer|, m.mem, m.tf.rflags);
    KeptWhenSame(cfg, outer, m.mem, m.tf.rflags, m'.mem, m'.tf.rflags);
  }

  lemma KeptInner(cfg: Config, live: seq<Live>, mem: Memory, rflags: Word)
    requires live != [] && Kept(cfg, live, mem, rflags)
    ensures Intact(mem, live[|live| - 1]) && Returnable(cfg, live[|live| - 1], rflags)
  {
    assert Held(cfg, live, |live| - 1, mem, rflags);
  }

  lemma ReturnKeepsInv(cfg: Config, st: State, st': State)
    requires Inv(cfg, st) && ReturnStep(cfg, st, st')
    ensures Inv(cfg, st')
  {
    KeptInner(cfg, st.live, st.m.mem, st.m.tf.rflags);
    ReturnRestores(cfg, st.m, st.live[|st.live| - 1]);
    SigreturnStaysUser(cfg, st.m, ContextAt(st.live[|st.live| - 1]));
    InvShrinks(cfg, st.live, st.m, st'.m);
  }

  /** In every orderly run all live frames are nested, intact and acceptable to
      sys_sigreturn. */
  lemma {:induction false} RunKeepsInv(cfg: Config, sts: seq<State>, k: nat)
    requires OrderlyRun(cfg, sts) && k < |sts|
    ensures Inv(cfg, sts[k])
  {
    if k > 0 {
      RunKeepsInv(cfg, sts, k - 1);
      var st, st' := sts[k - 1], sts[k - 1 + 1];
      assert OrderlyStep(cfg, st, st');
      if s :| FittingSend(cfg, st, s, st') {
        SendKeepsInv(cfg, st, s, st');
      } else if DisciplinedUser(cfg, st, st') {
        UserKeepsInv(cfg, st, st');
      } else {
        ReturnKeepsInv(cfg, st, st');
      }
    }
  }

  lemma OrderlyIsRun(cfg: Config, sts: seq<State>)
    requires OrderlyRun(cfg, sts)
    ensures Run(cfg, sts)
  {
    forall i | 0 <= i < |sts| - 1 ensures Step(cfg, sts[i], sts[i + 1]) {
      var st, st' := sts[i], sts[i + 1];
      assert OrderlyStep(cfg, st, st');
      if s :| FittingSend(cfg, st, s, st') {
        assert SendStep(cfg, st, s, st');
      }
    }
  }

  /** In every state of an orderly run all live frames are aligned and pairwise apart. */
  lemma LiveFramesApart(cfg: Config, sts: seq<State>, k: nat, i: nat, j: nat)
    requires OrderlyRun(cfg, sts) && k < |sts| && i < j < |sts[k].live|
    ensures Aligned(sts[k].live[i]) && Aligned(sts[k].live[j]) && Apart(sts[k].live[i], sts[k].live[j])
  {
    RunKeepsInv(cfg, sts, k);
    NestedApart(cfg, sts[k].live, i, j);
  }

  /** A frame put down in an orderly run is clear of the interrupted code's red zone. */
  lemma FrameClearOfRedZone(cfg: Config, sts: seq<State>, k: nat, s: Signal)
    requires OrderlyRun(cfg, sts) && k < |sts| - 1 && FittingSend(cfg, sts[k], s, sts[k + 1])
    ensures var l, rsp := NewLive(cfg, sts[k].m, s), sts[k].m.tf.rsp;
            l.top <= rsp - RED_ZONE || rsp <= l.sfp
  {
    RunKeepsInv(cfg, sts, k);
    NewFrameAligned(cfg, sts[k].m, s);
  }

  /** How many frames there are below the first one on the alternate stack. */
  function MainCount(live: seq<Live>): (n: nat)
    ensures n <= |live|
    ensures forall i | 0 <= i < n :: !live[i].alt
    ensures n < |live| ==> live[n].alt
  {
    if live == [] || live[0].alt then 0 else 1 + MainCount(live[1..])
  }

  ghost function Mains(live: seq<Live>): seq<Live> {
    live[..MainCount(live)]
  }

  ghost function Alts(live: seq<Live>): seq<Live> {
    live[MainCount(live)..]
  }

  lemma AboveMainsIsAlt(cfg: Config, live: seq<Live>)
    requires Nested(cfg, live)
    ensures AllAlt(Alts(live))
  {
    var n := MainCount(live);
    forall i | 0 <= i < |Alts(live)| ensures Alts(live)[i].alt {
      assert 0 < i ==> (live[n].alt ==> live[n + i].alt);
    }
  }

  lemma GrowsOn(cfg: Config, live: seq<Live>, m: Cpu, s: Signal)
    requires Grown(cfg, live) && Delivers(cfg, m, s) && Disciplined(cfg, live, m.tf.rsp)
    ensures Grown(cfg, live + [NewLive(cfg, m, s)])
  {
    NewFrameMade(cfg, m, s);
    assert (live + [NewLive(cfg, m, s)])[..|live|] == live;
  }

  lemma StepGrows(cfg: Config, st: State, st': State)
    requires Grown(cfg, st.live) && Disciplined(cfg, st.live, st.m.tf.rsp) && OrderlyStep(cfg, st, st')
    ensures Grown(cfg, st'.live)
  {
    if s :| FittingSend(cfg, st, s, st') {
      GrowsOn(cfg, st.live, st.m, s);
    }
  }

  lemma RunDisciplined(cfg: Config, sts: seq<State>, k: nat)
    requires OrderlyRun(cfg, sts) && k < |sts|
    ensures Disciplined(cfg, sts[k].live, sts[k].m.tf.rsp)
  {
    RunKeepsInv(cfg, sts, k);
  }

  lemma {:induction false} RunGrows(cfg: Config, sts: seq<State>, k: nat)
    requires OrderlyRun(cfg, sts) && k < |sts|
    ensures Grown(cfg, sts[k].live)
  {
    if k > 0 {
      RunGrows(cfg, sts, k - 1);
      RunDisciplined(cfg, sts, k - 1);
      StepGrows(cfg, sts[k - 1], sts[k - 1 + 1]);
    }
  }

  lemma MainsAndAlts(live: seq<Live>)
    ensures Mains(live) + Alts(live) == live && OnMain(Mains(live))
  {
  }

  lemma JoinedIsBeneath(cfg: Config, outer: seq<Live>, alts: seq<Live>, live: seq<Live>, rsp: Word)
    requires outer + alts == live && OnMain(outer)
    requires Nested(cfg, live) && Grown(cfg, live) && Disciplined(cfg, live, rsp)
    ensures Beneath(cfg, outer, alts, rsp)
  {
  }

  /** The stacks of orderly runs are made of main-stack frames under
      alternate-stack ones, all as sendsig makes them. */
  lemma OrderlyIsBeneath(cfg: Config, sts: seq<State>, k: nat)
    requires OrderlyRun(cfg, sts) && k < |sts|
    ensures var live := sts[k].live; AllAlt(Alts(live)) && Beneath(cfg, Mains(live), Alts(live), sts[k].m.tf.rsp)
  {
    var live := sts[k].live;
    RunKeepsInv(cfg, sts, k);
    RunGrows(cfg, sts, k);
    AboveMainsIsAlt(cfg, live);
    MainsAndAlts(live);
    JoinedIsBeneath(cfg, Mains(live), Alts(live), live, sts[k].m.tf.rsp);
  }

  /** In an orderly run the next frame on the alternate stack is apart from all
      live ones, whether it fits or not, unless it reaches below the highest
      top of a main-stack frame and there is room for one. */
  lemma NextFrameApart(cfg: Config, sts: seq<State>, k: nat, s: Signal)
    requires OrderlyRun(cfg, sts) && k < |sts| && Delivers(cfg, sts[k].m, s) && NewLive(cfg, sts[k].m, s).alt
    requires !Threatens(cfg, LeftAt(Alts(sts[k].live), sts[k].m.tf.rsp), NewLive(cfg, sts[k].m, s))
    ensures ApartFromAll(sts[k].live, NewLive(cfg, sts[k].m, s))
  {
    var m, live, l := sts[k].m, sts[k].live, NewLive(cfg, sts[k].m, s);
    var n := MainCount(live);
    RunKeepsInv(cfg, sts, k);
    OrderlyIsBeneath(cfg, sts, k);
    NewFrameAligned(cfg, m, s);
    forall i | 0 <= i < |live| ensures Apart(live[i], l) {
      if i < n {
        UnthreatenedApart(cfg, Mains(live), Alts(live), m.tf.rsp, l, i);
      } else {
        assert Alts(live)[i - n].alt;
        NewFrameApart(cfg, live, m, s, i);
      }
    }
  }

  lemma SendFits(cfg: Config, st: State, s: Signal, st': State)
    requires SendStep(cfg, st, s, st') && OrderlyStep(cfg, st, st')
    ensures Fits(cfg, NewLive(cfg, st.m, s))
  {
    assert st'.live[|st.live|] == NewLive(cfg, st.m, s);
    var s' :| FittingSend(cfg, st, s', st');
  }

  /** Every step of an orderly run spares every frame live before it. */
  lemma OrderlySpares(cfg: Config, sts: seq<State>, k: nat, d: nat)
    requires OrderlyRun(cfg, sts) && k < |sts| - 1 && d < |sts[k].live|
    ensures Spares(cfg, sts[k], sts[k + 1], sts[k].live[d])
  {
    var st, st' := sts[k], sts[k + 1];
    RunKeepsInv(cfg, sts, k);
    assert OrderlyStep(cfg, st, st');
    forall s | SendStep(cfg, st, s, st') ensures Apart(st.live[d], NewLive(cfg, st.m, s)) {
      SendFits(cfg, st, s, st');
      NewFrameApart(cfg, st.live, st.m, s, d);
    }
  }

  /** So in orderly runs every signal that returns brings its interrupted
      context back, to any depth of nesting. */
  lemma OrderlyUnwinds(cfg: Config, sts: seq<State>, i: nat, s: Signal, j: nat)
    requires OrderlyRun(cfg, sts) && Matched(cfg, sts, i, s, j)
    ensures Unwinds(cfg, sts, i, s, j)
  {
    OrderlyIsRun(cfg, sts);
    forall n | i < n < j ensures Spares(cfg, sts[n], sts[n + 1], NewLive(cfg, sts[i].m, s)) {
      FramesStay(cfg, sts, i, n);
      assert sts[n].live[..|sts[i].live| + 1][|sts[i].live|] == NewLive(cfg, sts[i].m, s);
      OrderlySpares(cfg, sts, n, |sts[i].live|);
    }
    SignalsUnwind(cfg, sts, i, s, j);
  }

  /** A handler that writes only below the stack pointer it was entered with,
      on its own stack, leaves every live frame alone. */
  lemma WritesBelowEntryAreSafe(cfg: Config, live: seq<Live>, mem: Memory, mem': Memory)
    requires Nested(cfg, live) && live != [] && mem'.Keys == mem.Keys
    requires var inner := live[|live| - 1];
             forall a | a in mem && mem'[a] != mem[a] :: a < inner.sfp && (inner.alt ==> cfg.ssSp <= a)
    ensures RegionsSame(live, mem, mem')
  {
    var n := |live| - 1;
    assert Aligned(live[n]) && Fits(cfg, live[n]);
    forall i | 0 <= i < |live| ensures SameOn(mem, mem', live[i].sfp, live[i].top) {
      assert Aligned(live[i]) && Fits(cfg, live[i]);
      if i < n { assert live[i].alt ==> live[n].alt; }
    }
  }
}
