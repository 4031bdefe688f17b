/** What goes wrong when a frame lands on one that is still in use: runs in which
    the outer signal's return does not bring its context back. */
module SignalOverrun {
  import opened Bits
  import opened SignalFrame
  import opened SignalDelivery
  import opened SignalGeometry
  import opened SignalNesting
  import opened SignalLayout
  import opened SignalOrderly

  // ----- starting the alternate stack again

  lemma SamePlace(cfg: Config, m0: Cpu, s0: Signal, m: Cpu, s: Signal)
    requires Delivers(cfg, m0, s0) && SwitchesToAlt(cfg, m0.tf.rsp, s0.signo)
    requires Delivers(cfg, m, s) && SwitchesToAlt(cfg, m.tf.rsp, s.signo)
    ensures NewLive(cfg, m0, s0).sfp == NewLive(cfg, m, s).sfp
  {
  }

  /** A frame holds one context only. */
  lemma OneContext(mem: Memory, a: Live, b: Live)
    requires Intact(mem, b) && a.sfp == b.sfp && a.uc.tf.rsp != b.uc.tf.rsp
    ensures !Intact(mem, a)
  {
    if Intact(mem, a) {
      FrameReadsBack(mem, a.sfp, a.handler, a.uc, a.si);
      FrameReadsBack(mem, b.sfp, b.handler, b.uc, b.si);
    }
  }

  lemma SharedReturn(cfg: Config, l0: Live, m: Cpu, s: Signal, now: Cpu)
    requires UserMode(cfg, m) && |s.info| == 10 && s.signo < 0x8000_0000 && l0.sfp == NewLive(cfg, m, s).sfp
    requires UserMode(cfg, now) && Preserved(m, NewLive(cfg, m, s), now)
    ensures var r := Sigreturn(cfg, now, ContextAt(l0)); r.error == EJUSTRETURN && SameContext(m, r.m)
  {
    ReturnsToInterrupted(cfg, m, s, now);
  }

  /** Two signals that both switch to the alternate stack share one frame: while
      the second one's is preserved, the first one's is not intact, and its
      return brings back what the second one interrupted. */
  lemma RestartLosesContext(cfg: Config, m0: Cpu, s0: Signal, m: Cpu, s: Signal, now: Cpu)
    requires Delivers(cfg, m0, s0) && SwitchesToAlt(cfg, m0.tf.rsp, s0.signo)
    requires Delivers(cfg, m, s) && SwitchesToAlt(cfg, m.tf.rsp, s.signo)
    requires UserMode(cfg, now) && Preserved(m, NewLive(cfg, m, s), now) && m0.tf.rsp != m.tf.rsp
    ensures !Intact(now.mem, NewLive(cfg, m0, s0))
    ensures var r := Sigreturn(cfg, now, ContextAt(NewLive(cfg, m0, s0)));
            r.error == EJUSTRETURN && SameContext(m, r.m)
  {
    SamePlace(cfg, m0, s0, m, s);
    OneContext(now.mem, NewLive(cfg, m0, s0), NewLive(cfg, m, s));
    SharedReturn(cfg, NewLive(cfg, m0, s0), m, s, now);
  }

  // ----- running below the alternate stack

  const FSBASE_WORD := 94
  const TRAPNO_WORD := 20

  lemma BaseOverwritten(mem: Memory, ucp: int, inner: Live)
    requires Intact(mem, inner) && ucp + 8 * FSBASE_WORD == inner.sfp + 8 * TRAPNO_WORD
    requires Mapped(mem, ucp, 8 * UC_WORDS)
    ensures ParseUc(ToWords(Load(mem, ucp, 8 * UC_WORDS))).fsbase == Join(inner.uc.tf.trapno, inner.uc.tf.fsgs)
  {
    SavedWord(mem, inner, TRAPNO_WORD - 2);
    HeadFields(inner.uc);
    ContextFields(ToWords(Load(mem, ucp, 8 * UC_WORDS)));
    ContextWord(mem, ucp, FSBASE_WORD);
  }

  lemma OverwrittenIsLost(mem: Memory, outer: Live, inner: Live)
    requires Intact(mem, inner) && inner.sfp == outer.sfp + 608
    requires outer.uc.fsbase != Join(inner.uc.tf.trapno, inner.uc.tf.fsgs)
    ensures !Intact(mem, outer)
  {
    if Intact(mem, outer) {
      FrameReadsBack(mem, outer.sfp, outer.handler, outer.uc, outer.si);
      BaseOverwritten(mem, outer.sfp + UC_OFFSET, inner);
    }
  }

  /** An inner frame that starts 608 bytes above an outer one puts its trap
      number and selectors where the outer context has its fs base. */
  lemma OverrunLosesBase(cfg: Config, now: Cpu, ucp: Word, inner: Live)
    requires Intact(now.mem, inner) && ucp + 8 * FSBASE_WORD == inner.sfp + 8 * TRAPNO_WORD
    ensures var r := Sigreturn(cfg, now, ucp);
            r.error == EJUSTRETURN ==> r.m.fsbase == Join(inner.uc.tf.trapno, inner.uc.tf.fsgs)
  {
    if Mapped(now.mem, ucp, 8 * UC_WORDS) {
      BaseOverwritten(now.mem, ucp, inner);
    }
  }

  lemma BaseNotRestored(cfg: Config, now: Cpu, ucp: Word, inner: Live, m: Cpu)
    requires Intact(now.mem, inner) && ucp + 8 * FSBASE_WORD == inner.sfp + 8 * TRAPNO_WORD
    requires m.fsbase != Join(inner.uc.tf.trapno, inner.uc.tf.fsgs)
    ensures var r := Sigreturn(cfg, now, ucp); !(r.error == EJUSTRETURN && SameContext(m, r.m))
  {
    OverrunLosesBase(cfg, now, ucp, inner);
  }

  // ----- concrete runs

  /** An alternate stack of 2000 bytes at 10000, used by signal 2 only. */
  const EXAMPLE := Config(true, 10000, 2000, {2}, {}, 0, 0, 3, 3, 0, 0)

  function Plain(signo: Word): Signal {
    Signal(signo, 0, 0, [0, 0, 0, 0, 0, 0, 0, 0, 0, 0], 1)
  }

  ghost predicate Room(mem: Memory) {
    forall a | 0 <= a < 20000 :: a in mem
  }

  /** A user thread with its stack pointer here and enough memory around it. */
  ghost predicate Thread(m: Cpu, rsp: Word) {
    UserMode(EXAMPLE, m) && Room(m.mem) && m.tf.rsp == rsp
  }

  lemma FrameIsMapped(m: Cpu, signo: Word)
    requires UserMode(EXAMPLE, m) && Room(m.mem) && signo in {1, 2} && 2000 <= m.tf.rsp < 20000
    ensures Mapped(m.mem, FrameAt(EXAMPLE, FrameTop(EXAMPLE, m.tf.rsp, signo)), FRAME_BYTES)
  {
  }

  /** What there is to know of a delivery once it is made. */
  ghost predicate Arrived(m: Cpu, signo: Word, l: Live, m': Cpu) {
    && UserMode(EXAMPLE, m') && Room(m'.mem) && Intact(m'.mem, l) && EflSecure(m.tf.rflags, m'.tf.rflags)
    && m'.tf.rsp == l.sfp && m'.tf.trapno == m.tf.trapno && m'.tf.fsgs == 0
    && l.uc.tf.trapno == m.tf.trapno && l.uc.tf.fsgs == m.tf.fsgs && l.uc.fsbase == m.fsbase
  }

  lemma Arrives(m: Cpu, signo: Word) returns (l: Live, m': Cpu)
    requires UserMode(EXAMPLE, m) && Room(m.mem) && signo in {1, 2} && 2000 <= m.tf.rsp < 20000
    ensures Delivers(EXAMPLE, m, Plain(signo)) && l == NewLive(EXAMPLE, m, Plain(signo))
    ensures m' == Send(EXAMPLE, m, Plain(signo)).m && Arrived(m, signo, l, m')
  {
    FrameIsMapped(m, signo);
    l, m' := NewLive(EXAMPLE, m, Plain(signo)), Send(EXAMPLE, m, Plain(signo)).m;
    StartsInUserMode(EXAMPLE, m, Plain(signo));
    NewFrameIntact(EXAMPLE, m, Plain(signo));
  }

  function Moved(m: Cpu, rsp: Word): Cpu {
    m.(tf := m.tf.(rsp := rsp))
  }

  lemma Returns(m: Cpu, l: Live) returns (m': Cpu)
    requires UserMode(EXAMPLE, m)
    ensures m' == Sigreturn(EXAMPLE, m, ContextAt(l)).m
    ensures UserMode(EXAMPLE, m') && m'.mem == m.mem && EflSecure(m.tf.rflags, m'.tf.rflags)
  {
    m' := Sigreturn(EXAMPLE, m, ContextAt(l)).m;
    SigreturnStaysUser(EXAMPLE, m, ContextAt(l));
  }

  /** Return from the innermost frame. */
  lemma Pops(st: State) returns (st': State)
    requires UserMode(EXAMPLE, st.m) && st.live != []
    ensures ReturnStep(EXAMPLE, st, st') && st'.live == st.live[..|st.live| - 1]
    ensures st'.m == Sigreturn(EXAMPLE, st.m, ContextAt(st.live[|st.live| - 1])).m
    ensures UserMode(EXAMPLE, st'.m) && st'.m.mem == st.m.mem && EflSecure(st.m.tf.rflags, st'.m.tf.rflags)
  {
    var m' := Returns(st.m, st.live[|st.live| - 1]);
    st' := State(m', st.live[..|st.live| - 1]);
  }

  lemma RunExtends(cfg: Config, sts: seq<State>, st': State)
    requires Run(cfg, sts) && Step(cfg, sts[|sts| - 1], st')
    ensures Run(cfg, sts + [st'])
  {
    var all := sts + [st'];
    forall i | 0 <= i < |all| - 1 ensures Step(cfg, all[i], all[i + 1]) {
      if i < |sts| - 1 { assert Step(cfg, sts[i], sts[i + 1]); }
    }
  }

  lemma RunSends(cfg: Config, sts: seq<State>, s: Signal, st': State)
    requires Run(cfg, sts) && SendStep(cfg, sts[|sts| - 1], s, st')
    ensures Run(cfg, sts + [st'])
  {
    RunExtends(cfg, sts, st');
  }

  lemma RunReturns(cfg: Config, sts: seq<State>, st': State)
    requires Run(cfg, sts) && ReturnStep(cfg, sts[|sts| - 1], st')
    ensures Run(cfg, sts + [st'])
  {
    RunExtends(cfg, sts, st');
  }

  /** The first signal delivered returns at the last step. */
  lemma MatchedFirst(cfg: Config, sts: seq<State>, s: Signal, j: nat)
    requires 0 < j == |sts| - 2 && SendStep(cfg, sts[0], s, sts[1]) && ReturnStep(cfg, sts[j], sts[j + 1])
    requires sts[0].live == sts[j + 1].live == [] && forall n | 0 < n <= j :: sts[n].live != []
    ensures Matched(cfg, sts, 0, s, j)
  {
  }

  lemma NotUnwound(cfg: Config, sts: seq<State>, s: Signal, j: nat)
    requires 0 < j < |sts| - 1 && |s.info| == 10 && s.signo < 0x8000_0000
    requires var r := Sigreturn(cfg, sts[j].m, ContextAt(NewLive(cfg, sts[0].m, s)));
             !(r.error == EJUSTRETURN && SameContext(sts[0].m, sts[j + 1].m))
    ensures !Unwinds(cfg, sts, 0, s, j)
  {
  }

  lemma RestartEnds(m0: Cpu, m2: Cpu, l0: Live, l: Live, m3: Cpu, m4: Cpu) returns (m5: Cpu)
    requires Delivers(EXAMPLE, m0, Plain(2)) && m0.tf.rsp == 15000 && l0 == NewLive(EXAMPLE, m0, Plain(2))
    requires Delivers(EXAMPLE, m2, Plain(2)) && m2.tf.rsp == 5000 && l == NewLive(EXAMPLE, m2, Plain(2))
    requires Arrived(m2, 2, l, m3)
    requires UserMode(EXAMPLE, m4) && m4.mem == m3.mem && EflSecure(m3.tf.rflags, m4.tf.rflags)
    ensures m5 == Sigreturn(EXAMPLE, m4, ContextAt(l0)).m && m5.tf.rsp == 5000 && !Intact(m3.mem, l0)
  {
    EflTransitive(m2.tf.rflags, m3.tf.rflags, m4.tf.rflags);
    RestartLosesContext(EXAMPLE, m0, Plain(2), m2, Plain(2), m4);
    m5 := Sigreturn(EXAMPLE, m4, ContextAt(l0)).m;
  }

  lemma RunStarts(cfg: Config, s0: State, s1: State, s2: State, s3: State, a: Signal, b: Signal)
    requires UserMode(cfg, s0.m) && s0.live == []
    requires SendStep(cfg, s0, a, s1) && UserStep(cfg, s1, s2) && SendStep(cfg, s2, b, s3)
    ensures Run(cfg, [s0, s1, s2, s3])
  {
    assert Step(cfg, s0, s1) && Step(cfg, s1, s2) && Step(cfg, s2, s3);
  }

  /** A handler on the alternate stack leaves it, and a second signal asks for it. */
  lemma RestartStart(m0: Cpu) returns (l0: Live, m2: Cpu, l: Live, sts: seq<State>)
    requires Thread(m0, 15000)
    ensures |sts| == 4 && sts[0] == State(m0, []) && sts[2].m == m2 && Run(EXAMPLE, sts)
    ensures SendStep(EXAMPLE, sts[0], Plain(2), sts[1])
    ensures Delivers(EXAMPLE, m0, Plain(2)) && l0 == NewLive(EXAMPLE, m0, Plain(2))
    ensures Delivers(EXAMPLE, m2, Plain(2)) && l == NewLive(EXAMPLE, m2, Plain(2)) && m2.tf.rsp == 5000
    ensures Arrived(m2, 2, l, sts[3].m)
    ensures sts[1].live == sts[2].live == [l0] && sts[3].live == [l0, l]
  {
    var m1;
    l0, m1 := Arrives(m0, 2);
    m2 := Moved(m1, 5000);
    var m3;
    l, m3 := Arrives(m2, 2);
    sts := [State(m0, []), State(m1, [l0]), State(m2, [l0]), State(m3, [l0, l])];
    RunStarts(EXAMPLE, sts[0], sts[1], sts[2], sts[3], Plain(2), Plain(2));
  }

  /** The two returns after that. */
  lemma RestartTail(m0: Cpu, l0: Live, m2: Cpu, l: Live, start: seq<State>) returns (s4: State, s5: State)
    requires m0.tf.rsp == 15000 && Delivers(EXAMPLE, m0, Plain(2)) && l0 == NewLive(EXAMPLE, m0, Plain(2))
    requires m2.tf.rsp == 5000 && Delivers(EXAMPLE, m2, Plain(2)) && l == NewLive(EXAMPLE, m2, Plain(2))
    requires |start| == 4 && Run(EXAMPLE, start) && start[3].live == [l0, l] && Arrived(m2, 2, l, start[3].m)
    ensures Run(EXAMPLE, start + [s4, s5]) && ReturnStep(EXAMPLE, s4, s5) && s4.live == [l0] && s5.live == []
    ensures s5.m.tf.rsp == 5000 && !Intact(start[3].m.mem, l0)
  {
    s4 := Pops(start[3]);
    s5 := Pops(s4);
    var m5 := RestartEnds(m0, m2, l0, l, start[3].m, s4.m);
    RunReturns(EXAMPLE, start, s4);
    RunReturns(EXAMPLE, start + [s4], s5);
    assert start + [s4, s5] == start + [s4] + [s5];
  }

  /** In such a run both returns end at the place the second signal interrupted. */
  lemma RestartRun(m0: Cpu) returns (sts: seq<State>)
    requires Thread(m0, 15000)
    ensures |sts| == 6 && sts[0].m == m0 && Run(EXAMPLE, sts)
    ensures Matched(EXAMPLE, sts, 0, Plain(2), 4) && !Unwinds(EXAMPLE, sts, 0, Plain(2), 4)
    ensures !OnAlt(EXAMPLE, sts[2].m.tf.rsp)
    ensures !Intact(sts[3].m.mem, NewLive(EXAMPLE, m0, Plain(2))) && sts[5].m.tf.rsp == 5000
  {
    var l0, m2, l, start := RestartStart(m0);
    var s4, s5 := RestartTail(m0, l0, m2, l, start);
    sts := start + [s4, s5];
    MatchedFirst(EXAMPLE, sts, Plain(2), 4);
  }

  lemma OverrunPlaces()
    ensures var top := FrameTop(EXAMPLE, 9999, 1); top == 9871 && FrameAt(EXAMPLE, top) == 8880
    ensures var top := FrameTop(EXAMPLE, 8880, 2); top == 12000 && FrameAt(EXAMPLE, top) == 11024
    ensures var top := FrameTop(EXAMPLE, 10600, 2); top == 10472 && FrameAt(EXAMPLE, top) == 9488
  {
  }

  lemma OrderlyStart(cfg: Config, s0: State, s1: State, s2: State, s3: State, a: Signal, b: Signal)
    requires UserMode(cfg, s0.m) && s0.live == [] && Disciplined(cfg, [], s0.m.tf.rsp)
    requires FittingSend(cfg, s0, a, s1) && FittingSend(cfg, s1, b, s2) && DisciplinedUser(cfg, s2, s3)
    ensures OrderlyRun(cfg, [s0, s1, s2, s3])
  {
    assert OrderlyStep(cfg, s0, s1) && OrderlyStep(cfg, s1, s2) && OrderlyStep(cfg, s2, s3);
  }

  /** Signal 1 on the main stack, then signal 2 on the alternate one, and 1400
      bytes used there: an orderly run. */
  lemma OverrunStart(m0: Cpu) returns (m3: Cpu, sts: seq<State>)
    requires Thread(m0, 9999) && m0.tf.trapno == 0
    ensures Delivers(EXAMPLE, m0, Plain(1)) && Thread(m3, 10600) && m3.tf.trapno == 0 && m3.tf.fsgs == 0
    ensures |sts| == 4 && sts[0] == State(m0, []) && sts[3].m == m3 && OrderlyRun(EXAMPLE, sts) && Run(EXAMPLE, sts)
    ensures SendStep(EXAMPLE, sts[0], Plain(1), sts[1])
    ensures |sts[1].live| == 1 && |sts[2].live| == 2 && |sts[3].live| == 2
    ensures sts[3].live[0] == NewLive(EXAMPLE, m0, Plain(1))
  {
    OverrunPlaces();
    var l0, m1 := Arrives(m0, 1);
    var l1, m2 := Arrives(m1, 2);
    m3 := Moved(m2, 10600);
    sts := [State(m0, []), State(m1, [l0]), State(m2, [l0, l1]), State(m3, [l0, l1])];
    OrderlyStart(EXAMPLE, sts[0], sts[1], sts[2], sts[3], Plain(1), Plain(2));
    OrderlyIsRun(EXAMPLE, sts);
  }

  /** Signal 2 again, in that run: its frame runs below the alternate stack and
      over the fs base saved in the first frame. */
  lemma OverrunHits(m0: Cpu, m3: Cpu) returns (l2: Live, m4: Cpu)
    requires Delivers(EXAMPLE, m0, Plain(1)) && m0.tf.rsp == 9999 && m0.fsbase == 7
    requires Thread(m3, 10600) && m3.tf.trapno == 0 && m3.tf.fsgs == 0
    ensures Delivers(EXAMPLE, m3, Plain(2)) && OnAlt(EXAMPLE, m3.tf.rsp) && m4 == Send(EXAMPLE, m3, Plain(2)).m
    ensures l2 == NewLive(EXAMPLE, m3, Plain(2)) && !Apart(NewLive(EXAMPLE, m0, Plain(1)), l2)
    ensures UserMode(EXAMPLE, m4) && Intact(m4.mem, l2) && !Intact(m4.mem, NewLive(EXAMPLE, m0, Plain(1)))
  {
    OverrunPlaces();
    l2, m4 := Arrives(m3, 2);
    OverwrittenIsLost(m4.mem, NewLive(EXAMPLE, m0, Plain(1)), l2);
  }

  /** While the third frame is in place, the first signal's return is not both
      accepted and right. */
  lemma OverrunReturns(m0: Cpu, m3: Cpu, now: Cpu)
    requires m0.tf.rsp == 9999 && m0.fsbase == 7
    requires m3.tf.rsp == 10600 && m3.tf.trapno == 0 && m3.tf.fsgs == 0
    requires Intact(now.mem, NewLive(EXAMPLE, m3, Plain(2)))
    ensures var r := Sigreturn(EXAMPLE, now, ContextAt(NewLive(EXAMPLE, m0, Plain(1))));
            !(r.error == EJUSTRETURN && SameContext(m0, r.m))
  {
    OverrunPlaces();
    BaseNotRestored(EXAMPLE, now, ContextAt(NewLive(EXAMPLE, m0, Plain(1))), NewLive(EXAMPLE, m3, Plain(2)), m0);
  }

  /** That delivery, and the returns from there on down to the first frame. */
  lemma OverrunTail(m0: Cpu, start: seq<State>) returns (s4: State, s5: State, s6: State, s7: State)
    requires Delivers(EXAMPLE, m0, Plain(1)) && m0.tf.rsp == 9999 && m0.fsbase == 7
    requires |start| == 4 && Run(EXAMPLE, start)
    requires var m3 := start[3].m; Thread(m3, 10600) && m3.tf.trapno == 0 && m3.tf.fsgs == 0
    requires |start[3].live| == 2 && start[3].live[0] == NewLive(EXAMPLE, m0, Plain(1))
    ensures Run(EXAMPLE, start + [s4, s5, s6, s7])
    ensures SendStep(EXAMPLE, start[3], Plain(2), s4) && ReturnStep(EXAMPLE, s6, s7)
    ensures |s4.live| == 3 && |s5.live| == 2 && |s6.live| == 1 && s7.live == []
    ensures !Intact(s4.m.mem, start[3].live[0])
    ensures !(Sigreturn(EXAMPLE, s6.m, ContextAt(start[3].live[0])).error == EJUSTRETURN && SameContext(m0, s7.m))
  {
    var l2, m4 := OverrunHits(m0, start[3].m);
    s4 := State(m4, start[3].live + [l2]);
    s5 := Pops(s4);
    s6 := Pops(s5);
    s7 := Pops(s6);
    OverrunReturns(m0, start[3].m, s6.m);
    RunSends(EXAMPLE, start, Plain(2), s4);
    RunReturns(EXAMPLE, start + [s4], s5);
    RunReturns(EXAMPLE, start + [s4] + [s5], s6);
    RunReturns(EXAMPLE, start + [s4] + [s5] + [s6], s7);
    assert start + [s4, s5, s6, s7] == start + [s4] + [s5] + [s6] + [s7];
  }

  /** The whole run: orderly up to the third delivery, then that delivery and
      three returns, the last of which does not bring the first context back. */
  ghost predicate Overrun(m0: Cpu, sts: seq<State>) {
    && |sts| == 8 && sts[0].m == m0 && OrderlyRun(EXAMPLE, sts[..4]) && Run(EXAMPLE, sts)
    && OnAlt(EXAMPLE, sts[3].m.tf.rsp) && SendStep(EXAMPLE, sts[3], Plain(2), sts[4])
    && !Intact(sts[4].m.mem, NewLive(EXAMPLE, m0, Plain(1)))
    && Matched(EXAMPLE, sts, 0, Plain(1), 6) && !Unwinds(EXAMPLE, sts, 0, Plain(1), 6)
  }

  /** Such a run, put together from its first four states and its last four. */
  lemma OverrunJoined(m0: Cpu, start: seq<State>, sts: seq<State>)
    requires |start| == 4 && |sts| == 8 && sts[..4] == start && sts[0] == State(m0, [])
    requires OrderlyRun(EXAMPLE, start) && Run(EXAMPLE, sts) && OnAlt(EXAMPLE, sts[3].m.tf.rsp)
    requires SendStep(EXAMPLE, sts[0], Plain(1), sts[1]) && SendStep(EXAMPLE, sts[3], Plain(2), sts[4])
    requires ReturnStep(EXAMPLE, sts[6], sts[7])
    requires sts[7].live == [] && forall n | 0 < n <= 6 :: sts[n].live != []
    requires !Intact(sts[4].m.mem, NewLive(EXAMPLE, m0, Plain(1)))
    requires var r := Sigreturn(EXAMPLE, sts[6].m, ContextAt(NewLive(EXAMPLE, m0, Plain(1))));
             !(r.error == EJUSTRETURN && SameContext(m0, sts[7].m))
    ensures Overrun(m0, sts)
  {
    MatchedFirst(EXAMPLE, sts, Plain(1), 6);
    NotUnwound(EXAMPLE, sts, Plain(1), 6);
  }

  lemma OverrunRun(m0: Cpu) returns (sts: seq<State>)
    requires Thread(m0, 9999) && m0.fsbase == 7 && m0.tf.trapno == 0
    ensures Overrun(m0, sts)
  {
    var m3, start := OverrunStart(m0);
    var s4, s5, s6, s7 := OverrunTail(m0, start);
    sts := start + [s4, s5, s6, s7];
    OverrunJoined(m0, start, sts);
  }

  // ----- such threads exist

  function Blank(n: nat): (mem: Memory)
    ensures forall a :: a in mem <==> 0 <= a < n
  {
    if n == 0 then map[] else Blank(n - 1)[n - 1 := 0]
  }

  lemma {:induction false} ZeroBit(i: nat)
    ensures !Bit(0, i)
  {
    if i > 0 { ZeroBit(i - 1); }
  }

  function Zeros(n: nat): seq<Word> {
    seq(n, _ => 0)
  }

  /** A thread of any stack pointer, with n bytes of memory and fs base 7. */
  lemma ThreadExists(rsp: Word, n: nat) returns (m: Cpu)
    requires 20000 <= n <= USER_TOP
    ensures Thread(m, rsp) && m.fsbase == 7 && m.tf.trapno == 0
  {
    ZeroBit(KILL_BIT);
    ZeroBit(STOP_BIT);
    m := Cpu(TrapFrame(Zeros(15), 0, 0, 0, 0, 0, 0, 0, 3, 0, rsp, 3), 7, 0, 0, 0,
             FpContext(FPFMT_XMM, FPOWNED_FPU, Zeros(64), []), Blank(n));
  }

  /** Such runs exist, from a thread that starts at either stack pointer. */
  lemma RunsGoWrong() returns (restart: seq<State>, overrun: seq<State>)
    ensures |restart| == 6 && Run(EXAMPLE, restart)
    ensures Matched(EXAMPLE, restart, 0, Plain(2), 4) && !Unwinds(EXAMPLE, restart, 0, Plain(2), 4)
    ensures |overrun| == 8 && Run(EXAMPLE, overrun) && OrderlyRun(EXAMPLE, overrun[..4])
    ensures Matched(EXAMPLE, overrun, 0, Plain(1), 6) && !Unwinds(EXAMPLE, overrun, 0, Plain(1), 6)
  {
    var n: nat := USER_TOP;
    var m := ThreadExists(15000, n);
    restart := RestartRun(m);
    var m0 := ThreadExists(9999, n);
    overrun := OverrunRun(m0);
  }
}
