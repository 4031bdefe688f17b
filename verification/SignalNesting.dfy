/** Runs of a thread in which signals are delivered, user code runs and handlers
    return, in any order and to any depth. Whatever happens elsewhere, a frame
    that no step writes to brings its interrupted context back. */
module SignalNesting {
  import opened Bits
  import opened SignalFrame
  import opened SignalDelivery
  import opened SignalGeometry

  // ----- what memory holds for a live frame

  /** The bytes of a live frame and of its FPU area are as sendsig left them. */
  ghost predicate Intact(mem: Memory, l: Live) {
    && WellSized(l.uc) && |l.si| == 10
    && Mapped(mem, l.sfp, FRAME_BYTES)
    && Load(mem, l.sfp, FRAME_BYTES) == ToBytes(FrameWords(l.handler, l.uc, l.si))
    && Mapped(mem, l.xaddr, |l.ext|)
    && Load(mem, l.xaddr, |l.ext|) == l.ext
  }

  lemma IntactWhenSame(mem: Memory, mem': Memory, l: Live)
    requires Intact(mem, l) && Aligned(l) && SameOn(mem, mem', l.sfp, l.top)
    ensures Intact(mem', l)
  {
    LoadSame(mem, mem', l.sfp, FRAME_BYTES);
    LoadSame(mem, mem', l.xaddr, |l.ext|);
  }

  /** sendsig writes inside the region of its own frame only. */
  lemma SendWrites(cfg: Config, m: Cpu, s: Signal, lo: int, hi: int)
    requires Delivers(cfg, m, s)
    requires var l := NewLive(cfg, m, s); l.top <= lo || hi <= l.sfp
    ensures SameOn(m.mem, Send(cfg, m, s).m.mem, lo, hi)
  {
    NewFrameAligned(cfg, m, s);
  }

  /** The new frame is in memory as it was built. */
  lemma NewFrameIntact(cfg: Config, m: Cpu, s: Signal)
    requires Delivers(cfg, m, s)
    ensures Intact(Send(cfg, m, s).m.mem, NewLive(cfg, m, s))
  {
    var l, m' := NewLive(cfg, m, s), Send(cfg, m, s).m;
    NewFrameAligned(cfg, m, s);
    var bytes := ToBytes(FrameWords(l.handler, l.uc, l.si));
    var mem := Store(m.mem, l.sfp, bytes);
    LoadStored(m.mem, l.sfp, bytes);
    if cfg.xlen != 0 {
      LoadStored(mem, l.xaddr, l.ext);
      LoadSame(mem, m'.mem, l.sfp, FRAME_BYTES);
    }
  }

  lemma StartsInUserMode(cfg: Config, m: Cpu, s: Signal)
    requires Delivers(cfg, m, s)
    ensures var m' := Send(cfg, m, s).m;
            UserMode(cfg, m') && m'.tf.rsp == NewLive(cfg, m, s).sfp && EflSecure(m.tf.rflags, m'.tf.rflags)
  {
    UntracedIsSecure(m.tf.rflags);
  }

  // ----- returning

  /** A saved context that sys_sigreturn will accept, but for the flags. */
  ghost predicate WellSaved(cfg: Config, l: Live) {
    && l.uc.tf.flags <= MC_FLAG_MASK && l.uc.tf.cs % 4 == 3
    && Maskable(l.uc.mask0)
    && FpOk(cfg, FpContext(l.uc.format, l.uc.owned, l.uc.fpstate, l.ext))
    && (HasFpx(l.uc.tf.flags) ==> l.uc.xlen == cfg.xlen && (cfg.xlen != 0 ==> l.uc.xaddr == l.xaddr))
    && (cfg.xlen != 0 ==> HasFpx(l.uc.tf.flags))
  }

  /** A saved context that sys_sigreturn will accept from the present flags. */
  ghost predicate Returnable(cfg: Config, l: Live, rflags: Word) {
    WellSaved(cfg, l) && EflSecure(l.uc.tf.rflags, rflags)
  }

  lemma FpxBit(flags: Half)
    requires flags <= MC_FLAG_MASK
    ensures WithFpx(flags) <= MC_FLAG_MASK && HasFpx(WithFpx(flags))
  {
  }

  lemma NewReturnable(cfg: Config, m: Cpu, s: Signal, rflags: Word)
    requires UserMode(cfg, m) && |s.info| == 10 && s.signo < 0x8000_0000 && EflSecure(m.tf.rflags, rflags)
    ensures Returnable(cfg, NewLive(cfg, m, s), rflags)
  {
    FpxBit(m.tf.flags);
  }

  /** What a return from this frame is to bring back. The saved
      tf_flags may have gained the extended-state flag. */
  ghost predicate Restores(l: Live, m: Cpu) {
    && m.tf == l.uc.tf
    && m.fsbase == l.uc.fsbase && m.gsbase == l.uc.gsbase
    && m.mask0 == l.uc.mask0 && m.mask1 == l.uc.mask1
    && (l.uc.format == FPFMT_XMM && l.uc.owned != FPOWNED_NONE ==>
          m.fp == FpContext(l.uc.format, l.uc.owned, l.uc.fpstate, l.ext))
  }

  lemma MaskKept(mask: Word)
    requires Maskable(mask)
    ensures CanMask(mask) == mask
  {
    ClearAbsent(mask, KILL_BIT);
    ClearAbsent(mask, STOP_BIT);
  }

  /** Where the handler's return passes its context. */
  function ContextAt(l: Live): Word {
    Add(l.sfp, UC_OFFSET)
  }

  lemma ContextDoesNotWrap(cfg: Config, m: Cpu, l: Live)
    requires UserMode(cfg, m) && Mapped(m.mem, l.sfp, FRAME_BYTES)
    ensures ContextAt(l) == l.sfp + UC_OFFSET
  {
    assert l.sfp in m.mem;
  }

  /** Returning from an intact frame succeeds and brings the saved context back. */
  lemma ReturnRestores(cfg: Config, m: Cpu, l: Live)
    requires UserMode(cfg, m) && Intact(m.mem, l) && Returnable(cfg, l, m.tf.rflags)
    ensures var r := Sigreturn(cfg, m, ContextAt(l));
            r.error == EJUSTRETURN && Restores(l, r.m) && r.m.mem == m.mem
  {
    ContextDoesNotWrap(cfg, m, l);
    FrameReadsBack(m.mem, l.sfp, l.handler, l.uc, l.si);
    MaskKept(l.uc.mask0);
    assert l.ext + m.fp.ext[|l.ext|..] == l.ext;
  }

  /** From an intact frame whose other fields are acceptable, sys_sigreturn
      succeeds exactly if the saved and the present flags agree on every bit
      but the twelve a user may change; if not, it gives EINVAL and changes
      nothing. */
  lemma FlagsDecide(cfg: Config, m: Cpu, l: Live)
    requires UserMode(cfg, m) && Intact(m.mem, l) && WellSaved(cfg, l)
    ensures var r := Sigreturn(cfg, m, ContextAt(l));
            if forall i | 0 <= i < 64 && i !in {0, 2, 4, 6, 7, 8, 10, 11, 14, 16, 18, 21} ::
                 Bit(l.uc.tf.rflags, i) == Bit(m.tf.rflags, i)
            then r.error == EJUSTRETURN else r == Return(22, m)
    ensures forall i | i in {9, 12, 13} && Bit(l.uc.tf.rflags, i) != Bit(m.tf.rflags, i) ::
              Sigreturn(cfg, m, ContextAt(l)) == Return(22, m)
  {
    if forall i | 0 <= i < 64 && i !in {0, 2, 4, 6, 7, 8, 10, 11, 14, 16, 18, 21} ::
         Bit(l.uc.tf.rflags, i) == Bit(m.tf.rflags, i) {
      ReturnRestores(cfg, m, l);
    } else {
      ContextDoesNotWrap(cfg, m, l);
      FrameReadsBack(m.mem, l.sfp, l.handler, l.uc, l.si);
    }
  }

  /** The same interrupted context: all registers, selectors, bases and the
      mask; of tf_flags nothing is said. FPU contents when the FPU was in use. */
  ghost predicate SameContext(m: Cpu, m': Cpu) {
    && m'.tf == m.tf.(flags := m'.tf.flags)
    && m'.fsbase == m.fsbase && m'.gsbase == m.gsbase
    && m'.mask0 == m.mask0 && m'.mask1 == m.mask1
    && (m.fp.format == FPFMT_XMM && m.fp.owned != FPOWNED_NONE ==> m'.fp == m.fp)
  }

  lemma RestoredIsSame(cfg: Config, m: Cpu, s: Signal, m': Cpu)
    requires |s.info| == 10 && s.signo < 0x8000_0000 && Restores(NewLive(cfg, m, s), m')
    ensures SameContext(m, m')
  {
  }

  // ----- runs

  /** A thread together with its live frames, outermost first. */
  datatype State = State(m: Cpu, live: seq<Live>)

  /** A signal is delivered on top of the running code. */
  ghost predicate SendStep(cfg: Config, st: State, s: Signal, st': State) {
    && Delivers(cfg, st.m, s)
    && st'.m == Send(cfg, st.m, s).m
    && st'.live == st.live + [NewLive(cfg, st.m, s)]
  }

  /** User code runs: it may change every register, the mask, the FPU and all of
      memory, but no privileged flag bit. */
  ghost predicate UserStep(cfg: Config, st: State, st': State) {
    && st'.live == st.live
    && UserMode(cfg, st'.m)
    && forall i | 0 <= i < 64 && i !in {0, 2, 4, 6, 7, 8, 10, 11, 14, 16, 18, 21} ::
         Bit(st.m.tf.rflags, i) == Bit(st'.m.tf.rflags, i)
  }

  /** The innermost handler is done: its frame's context, or what has become of
      it, goes to sys_sigreturn. */
  ghost predicate ReturnStep(cfg: Config, st: State, st': State) {
    && st.live != []
    && st'.m == Sigreturn(cfg, st.m, ContextAt(st.live[|st.live| - 1])).m
    && st'.live == st.live[..|st.live| - 1]
  }

  ghost predicate Step(cfg: Config, st: State, st': State) {
    (exists s :: SendStep(cfg, st, s, st')) || UserStep(cfg, st, st') || ReturnStep(cfg, st, st')
  }

  /** A run: any sequence of steps from user code with no signal in flight. */
  ghost predicate Run(cfg: Config, sts: seq<State>) {
    && |sts| > 0 && UserMode(cfg, sts[0].m) && sts[0].live == []
    && forall i | 0 <= i < |sts| - 1 :: Step(cfg, sts[i], sts[i + 1])
  }

  lemma StepStaysUser(cfg: Config, st: State, st': State)
    requires UserMode(cfg, st.m) && Step(cfg, st, st')
    ensures UserMode(cfg, st'.m) && EflSecure(st.m.tf.rflags, st'.m.tf.rflags)
  {
    if s :| SendStep(cfg, st, s, st') {
      StartsInUserMode(cfg, st.m, s);
    } else if ReturnStep(cfg, st, st') {
      SigreturnStaysUser(cfg, st.m, ContextAt(st.live[|st.live| - 1]));
    }
  }

  /** No run leaves user mode or changes a privileged flag bit, whatever user
      code writes into the frames it returns through. */
  lemma {:induction false} RunStaysUser(cfg: Config, sts: seq<State>, k: nat)
    requires Run(cfg, sts) && k < |sts|
    ensures UserMode(cfg, sts[k].m) && EflSecure(sts[0].m.tf.rflags, sts[k].m.tf.rflags)
  {
    if k > 0 {
      RunStaysUser(cfg, sts, k - 1);
      assert Step(cfg, sts[k - 1], sts[k - 1 + 1]);
      StepStaysUser(cfg, sts[k - 1], sts[k]);
      EflTransitive(sts[0].m.tf.rflags, sts[k - 1].m.tf.rflags, sts[k].m.tf.rflags);
    }
  }

  /** This step does not write where the frame lies: a signal is delivered apart
      from it, user code keeps off it. */
  ghost predicate Spares(cfg: Config, st: State, st': State, l: Live) {
    && (forall s | SendStep(cfg, st, s, st') :: Apart(l, NewLive(cfg, st.m, s)))
    && (UserStep(cfg, st, st') ==> SameOn(st.m.mem, st'.m.mem, l.sfp, l.top))
  }

  lemma SparedIsSame(cfg: Config, st: State, st': State, l: Live)
    requires UserMode(cfg, st.m) && Step(cfg, st, st') && Spares(cfg, st, st', l)
    ensures SameOn(st.m.mem, st'.m.mem, l.sfp, l.top)
  {
    if s :| SendStep(cfg, st, s, st') {
      SendWrites(cfg, st.m, s, l.sfp, l.top);
    } else if ReturnStep(cfg, st, st') {
      SigreturnStaysUser(cfg, st.m, ContextAt(st.live[|st.live| - 1]));
    }
  }

  /** The frame of a signal that interrupted m is intact, and the privileged
      flag bits are still those of m. */
  ghost predicate Preserved(m: Cpu, l: Live, now: Cpu) {
    Intact(now.mem, l) && EflSecure(m.tf.rflags, now.tf.rflags)
  }

  lemma FrameStarts(cfg: Config, st: State, s: Signal, st': State)
    requires SendStep(cfg, st, s, st')
    ensures Preserved(st.m, NewLive(cfg, st.m, s), st'.m)
  {
    NewFrameIntact(cfg, st.m, s);
    StartsInUserMode(cfg, st.m, s);
  }

  lemma FrameKeptStep(cfg: Config, m: Cpu, l: Live, st: State, st': State)
    requires UserMode(cfg, st.m) && Step(cfg, st, st') && Spares(cfg, st, st', l)
    requires Aligned(l) && Preserved(m, l, st.m)
    ensures Preserved(m, l, st'.m)
  {
    StepStaysUser(cfg, st, st');
    EflTransitive(m.tf.rflags, st.m.tf.rflags, st'.m.tf.rflags);
    SparedIsSame(cfg, st, st', l);
    IntactWhenSame(st.m.mem, st'.m.mem, l);
  }

  ghost predicate SparingStep(cfg: Config, st: State, st': State, l: Live) {
    UserMode(cfg, st.m) && Step(cfg, st, st') && Spares(cfg, st, st', l)
  }

  lemma {:induction false} PreservedAlong(cfg: Config, m: Cpu, l: Live, sts: seq<State>, i: nat, k: nat)
    requires i <= k < |sts| && Aligned(l) && Preserved(m, l, sts[i].m)
    requires forall n | i <= n < k :: SparingStep(cfg, sts[n], sts[n + 1], l)
    ensures Preserved(m, l, sts[k].m)
    decreases k
  {
    if i < k {
      PreservedAlong(cfg, m, l, sts, i, k - 1);
      var n := k - 1;
      assert SparingStep(cfg, sts[n], sts[n + 1], l);
      FrameKeptStep(cfg, m, l, sts[n], sts[n + 1]);
    }
  }

  /** A frame that every later step spares stays as sendsig left it, whatever
      becomes of the other frames. */
  lemma FrameKept(cfg: Config, sts: seq<State>, i: nat, s: Signal, k: nat)
    requires Run(cfg, sts) && i < k < |sts| && SendStep(cfg, sts[i], s, sts[i + 1])
    requires forall n | i < n < k :: Spares(cfg, sts[n], sts[n + 1], NewLive(cfg, sts[i].m, s))
    ensures Preserved(sts[i].m, NewLive(cfg, sts[i].m, s), sts[k].m)
  {
    var l := NewLive(cfg, sts[i].m, s);
    FrameStarts(cfg, sts[i], s, sts[i + 1]);
    NewFrameAligned(cfg, sts[i].m, s);
    forall n | i + 1 <= n < k ensures SparingStep(cfg, sts[n], sts[n + 1], l) {
      RunStaysUser(cfg, sts, n);
      assert Step(cfg, sts[n], sts[n + 1]);
    }
    PreservedAlong(cfg, sts[i].m, l, sts, i + 1, k);
  }

  /** Live frames come and go at the end, one at a time. */
  ghost predicate Moves(live: seq<Live>, live': seq<Live>) {
    live <= live' || (live != [] && live' == live[..|live| - 1])
  }

  lemma StepMoves(cfg: Config, st: State, st': State)
    requires Step(cfg, st, st')
    ensures Moves(st.live, st'.live)
  {
  }

  lemma RunMoves(cfg: Config, sts: seq<State>)
    requires Run(cfg, sts)
    ensures forall n | 0 < n < |sts| :: Moves(sts[n - 1].live, sts[n].live)
  {
    forall n | 0 < n < |sts| ensures Moves(sts[n - 1].live, sts[n].live) {
      assert Step(cfg, sts[n - 1], sts[n - 1 + 1]);
      StepMoves(cfg, sts[n - 1], sts[n]);
    }
  }

  lemma {:induction false} PrefixStays(sts: seq<State>, i: nat, k: nat)
    requires i < k < |sts| && forall n | i + 1 < n <= k :: Moves(sts[n - 1].live, sts[n].live)
    requires forall n | i < n <= k :: |sts[n].live| >= |sts[i + 1].live|
    ensures sts[k].live[..|sts[i + 1].live|] == sts[i + 1].live
  {
    if k > i + 1 {
      PrefixStays(sts, i, k - 1);
      assert Moves(sts[k - 1].live, sts[k].live);
    }
  }

  /** Between a delivery and its return the frames below it stay where they are. */
  lemma FramesStay(cfg: Config, sts: seq<State>, i: nat, k: nat)
    requires Run(cfg, sts) && i < k < |sts| && |sts[i + 1].live| == |sts[i].live| + 1
    requires forall n | i < n <= k :: |sts[n].live| > |sts[i].live|
    ensures sts[k].live[..|sts[i].live| + 1] == sts[i + 1].live
  {
    RunMoves(cfg, sts);
    PrefixStays(sts, i, k);
  }

  /** The signal delivered at step i returns at step j: what was delivered in
      between has returned by then. */
  ghost predicate Matched(cfg: Config, sts: seq<State>, i: nat, s: Signal, j: nat) {
    && i < j < |sts| - 1
    && SendStep(cfg, sts[i], s, sts[i + 1]) && ReturnStep(cfg, sts[j], sts[j + 1])
    && |sts[j + 1].live| == |sts[i].live|
    && forall n | i < n <= j :: |sts[n].live| > |sts[i].live|
  }

  /** That return is accepted and the interrupted context is back. */
  ghost predicate Unwinds(cfg: Config, sts: seq<State>, i: nat, s: Signal, j: nat)
    requires i < j < |sts| - 1 && |s.info| == 10 && s.signo < 0x8000_0000
  {
    && sts[j + 1].live == sts[i].live && SameContext(sts[i].m, sts[j + 1].m)
    && Sigreturn(cfg, sts[j].m, ContextAt(NewLive(cfg, sts[i].m, s))).error == EJUSTRETURN
  }

  lemma InnermostAtReturn(cfg: Config, sts: seq<State>, i: nat, s: Signal, j: nat)
    requires Run(cfg, sts) && Matched(cfg, sts, i, s, j)
    ensures sts[j + 1].live == sts[i].live
    ensures sts[j].live[|sts[j].live| - 1] == NewLive(cfg, sts[i].m, s)
  {
    FramesStay(cfg, sts, i, j);
    assert sts[j].live == sts[j].live[..|sts[i].live| + 1];
  }

  /** Returning from the frame of a signal delivered in m. */
  lemma ReturnsToInterrupted(cfg: Config, m: Cpu, s: Signal, now: Cpu)
    requires UserMode(cfg, m) && |s.info| == 10 && s.signo < 0x8000_0000
    requires UserMode(cfg, now) && Intact(now.mem, NewLive(cfg, m, s)) && EflSecure(m.tf.rflags, now.tf.rflags)
    ensures var r := Sigreturn(cfg, now, ContextAt(NewLive(cfg, m, s)));
            r.error == EJUSTRETURN && SameContext(m, r.m)
  {
    NewReturnable(cfg, m, s, now.tf.rflags);
    ReturnRestores(cfg, now, NewLive(cfg, m, s));
    RestoredIsSame(cfg, m, s, Sigreturn(cfg, now, ContextAt(NewLive(cfg, m, s))).m);
  }

  /** Nested signals unwind exactly: in any run, a signal whose frame every step
      up to its return spares is returned from with success, and the
      interrupted context is back. */
  lemma SignalsUnwind(cfg: Config, sts: seq<State>, i: nat, s: Signal, j: nat)
    requires Run(cfg, sts) && Matched(cfg, sts, i, s, j)
    requires forall n | i < n < j :: Spares(cfg, sts[n], sts[n + 1], NewLive(cfg, sts[i].m, s))
    ensures Unwinds(cfg, sts, i, s, j)
  {
    InnermostAtReturn(cfg, sts, i, s, j);
    FrameKept(cfg, sts, i, s, j);
    RunStaysUser(cfg, sts, j);
    ReturnsToInterrupted(cfg, sts[i].m, s, sts[j].m);
  }
}
