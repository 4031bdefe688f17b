/** Delivering signals and returning from them: where sendsig puts a frame,
    what it saves, and what sys_sigreturn brings back. */
module SignalDelivery {
  import opened Bits
  import opened Common
  import opened SignalFrame

  const RED_ZONE := 128
  const USER_TOP := 0x8000_0000_0000

  const EJUSTRETURN := -2

  /** PSL_T, PSL_D, SIGKILL and SIGSTOP as bit positions. */
  const PSL_T := 8
  const PSL_D := 10
  const KILL_BIT := 8
  const STOP_BIT := 16

  const TF_HASSEGS := 0x1
  const MC_FLAG_MASK := 0x7

  const FPFMT_NODEV := 0x10000
  const FPFMT_XMM := 0x10002
  const FPOWNED_NONE := 0x20000
  const FPOWNED_FPU := 0x20001
  const FPOWNED_PCB := 0x20002

  type Sel = x: int | 0 <= x < 0x1_0000

  /** What stays fixed while signals come and go: the alternate stack, the
      per-signal settings, the size of the extended FPU area, the selectors. */
  datatype Config = Config(alt: bool, ssSp: Word, ssSize: Word, onAltSigs: set<int>, siginfoSigs: set<int>,
                           xlen: Word, sigcode: Word, ucodesel: Word, udatasel: Sel, ufssel: Sel, ugssel: Sel)

  ghost predicate ConfigOk(cfg: Config) {
    && cfg.ssSp + cfg.ssSize < WORD_SPAN
    && cfg.xlen < 0x1_0000_0000
    && cfg.ucodesel % 4 == 3
  }

  datatype Cpu = Cpu(tf: TrapFrame, fsbase: Word, gsbase: Word, mask0: Word, mask1: Word, fp: FpContext, mem: Memory)

  datatype Signal = Signal(signo: Word, code: Word, addr: Word, info: seq<Word>, catcher: Word)

  /** Reads that get_fpcontext can produce. */
  ghost predicate FpOk(cfg: Config, fp: FpContext) {
    && |fp.state| == 64 && |fp.ext| == cfg.xlen
    && fp.format in {FPFMT_NODEV, FPFMT_XMM}
    && fp.owned in {FPOWNED_NONE, FPOWNED_FPU, FPOWNED_PCB}
  }

  /** SIGKILL and SIGSTOP are not masked. */
  ghost predicate Maskable(mask0: Word) {
    !Bit(mask0, KILL_BIT) && !Bit(mask0, STOP_BIT)
  }

  /** A thread running user code. */
  ghost predicate UserMode(cfg: Config, m: Cpu) {
    && |m.tf.gpr| == 15 && m.tf.cs % 4 == 3
    && m.tf.flags <= MC_FLAG_MASK
    && Maskable(m.mask0)
    && FpOk(cfg, m.fp)
    && forall a | a in m.mem :: 0 <= a < USER_TOP
  }

  // ----- where a frame goes

  /** a + b and a - b as 64-bit words, wrapping round. */
  function Add(a: Word, b: Word): Word {
    if a + b < WORD_SPAN then a + b else a + b - WORD_SPAN
  }

  function Sub(a: Word, b: Word): Word {
    if b <= a then a - b else a - b + WORD_SPAN
  }

  function Down(a: Word, n: nat): Word
    requires n > 0
  {
    a - a % n
  }

  /** sigonstack */
  predicate OnAlt(cfg: Config, rsp: Word) {
    cfg.alt && cfg.ssSp <= rsp < cfg.ssSp + cfg.ssSize
  }

  predicate SwitchesToAlt(cfg: Config, rsp: Word, signo: int) {
    cfg.alt && !OnAlt(cfg, rsp) && signo in cfg.onAltSigs
  }

  function FrameTop(cfg: Config, rsp: Word, signo: int): Word {
    if SwitchesToAlt(cfg, rsp, signo) then Add(cfg.ssSp, cfg.ssSize) else Sub(rsp, RED_ZONE)
  }

  function XArea(cfg: Config, top: Word): Word {
    if cfg.xlen == 0 then top else Down(Sub(top, cfg.xlen), 64)
  }

  function FrameAt(cfg: Config, top: Word): Word {
    Down(Sub(XArea(cfg, top), FRAME_BYTES), 16)
  }

  // ----- what is saved and written

  function Flag(b: bool): Word {
    if b then 1 else 0
  }

  predicate HasFpx(flags: Half) {
    flags / 4 % 2 == 1
  }

  /** flags | _MC_HASFPXSTATE */
  function WithFpx(flags: Half): Half {
    if HasFpx(flags) then flags else flags + 4
  }

  /** bcopy of the trap frame followed by get_fpcontext. */
  function SavedContext(cfg: Config, m: Cpu, xaddr: Word): UContext {
    var onstack := OnAlt(cfg, m.tf.rsp);
    var ssFlags := if !cfg.alt then 4 else Flag(onstack);
    var flags := if cfg.xlen == 0 then m.tf.flags else WithFpx(m.tf.flags);
    UContext(m.mask0, m.mask1, Flag(onstack), m.tf.(flags := flags),
             m.fp.format, m.fp.owned, m.fp.state, m.fsbase, m.gsbase,
             if cfg.xlen == 0 then 0 else xaddr, cfg.xlen, [cfg.ssSp, cfg.ssSize, ssFlags])
  }

  function SigInfo(cfg: Config, s: Signal): (si: seq<Word>)
    requires |s.info| == 10 && s.signo < 0x8000_0000
    ensures |si| == 10
  {
    if s.signo in cfg.siginfoSigs then s.info[0 := s.info[0] - s.info[0] % 0x1_0000_0000 + s.signo]
    else [0, 0, 0, 0, 0, 0, 0, 0, 0, 0]
  }

  /** rflags & ~(PSL_T | PSL_D) */
  function Untraced(rflags: Word): Word {
    ClearShrinks(rflags, PSL_T);
    ClearShrinks(ClearBit(rflags, PSL_T), PSL_D);
    ClearBit(ClearBit(rflags, PSL_T), PSL_D)
  }

  /** The handler's arguments: signal, siginfo or code, context, fault address. */
  function ArgRegs(cfg: Config, gpr: seq<Word>, s: Signal, sfp: Word): (r: seq<Word>)
    requires |gpr| == 15
    ensures |r| == 15
  {
    var arg2 := if s.signo in cfg.siginfoSigs then Add(sfp, UC_OFFSET + 8 * UC_WORDS) else s.code;
    gpr[RDI := s.signo][RDX := Add(sfp, UC_OFFSET)][RSI := arg2][RCX := s.addr]
  }

  /** The trap frame the handler starts from. */
  function HandlerRegs(cfg: Config, tf: TrapFrame, s: Signal, sfp: Word): TrapFrame
    requires |tf.gpr| == 15
  {
    TrapFrame(ArgRegs(cfg, tf.gpr, s, sfp), tf.trapno, cfg.ufssel + 0x1_0000 * cfg.ugssel, tf.addr,
              TF_HASSEGS, cfg.udatasel + 0x1_0000 * cfg.udatasel,
              tf.err, cfg.sigcode, cfg.ucodesel, Untraced(tf.rflags), sfp, cfg.udatasel)
  }

  datatype Delivery = Delivered(m: Cpu) | Killed

  /** sendsig. A failed copyout ends the process with SIGILL. */
  function Send(cfg: Config, m: Cpu, s: Signal): Delivery
    requires |m.tf.gpr| == 15 && |m.fp.state| == 64 && |m.fp.ext| == cfg.xlen
    requires |s.info| == 10 && s.signo < 0x8000_0000
  {
    var top := FrameTop(cfg, m.tf.rsp, s.signo);
    var xaddr, sfp := XArea(cfg, top), FrameAt(cfg, top);
    var bytes := ToBytes(FrameWords(s.catcher, SavedContext(cfg, m, xaddr), SigInfo(cfg, s)));
    if !Mapped(m.mem, sfp, FRAME_BYTES) then Killed
    else
      var mem := Store(m.mem, sfp, bytes);
      if cfg.xlen != 0 && !Mapped(mem, xaddr, cfg.xlen) then Killed
      else
        var mem' := if cfg.xlen != 0 then Store(mem, xaddr, m.fp.ext) else mem;
        Delivered(m.(tf := HandlerRegs(cfg, m.tf, s, sfp), mem := mem'))
  }

  // ----- coming back

  /** The flags agree outside the bits a user may change, PSL_USERCHANGE. */
  predicate EflSecure(ef: Word, oef: Word) {
    forall i | 0 <= i < 64 && i !in {0, 2, 4, 6, 7, 8, 10, 11, 14, 16, 18, 21} :: Bit(ef, i) == Bit(oef, i)
  }

  /** What kern_sigprocmask makes of a new mask: SIGKILL and SIGSTOP are dropped. */
  function CanMask(mask0: Word): Word {
    ClearShrinks(mask0, KILL_BIT);
    ClearShrinks(ClearBit(mask0, KILL_BIT), STOP_BIT);
    ClearBit(ClearBit(mask0, KILL_BIT), STOP_BIT)
  }

  datatype Return = Return(error: int, m: Cpu)

  /** The checks of set_fpcontext; 0 when the context is accepted. */
  function FpCheck(uc: UContext): int {
    if uc.format == FPFMT_NODEV then 0
    else if uc.format != FPFMT_XMM then EINVAL
    else if uc.owned in {FPOWNED_NONE, FPOWNED_FPU, FPOWNED_PCB} then 0
    else EINVAL
  }

  /** The extended state with its first bytes replaced. */
  function Overlay(was: seq<Byte>, ext: seq<Byte>): seq<Byte> {
    if |ext| <= |was| then ext + was[|ext|..] else ext
  }

  /** What set_fpcontext leaves: the given state, or the FPU dropped or untouched. */
  function FpInstalled(fp: FpContext, uc: UContext, ext: seq<Byte>): FpContext {
    if uc.format == FPFMT_NODEV then fp
    else if uc.owned == FPOWNED_NONE then fp.(owned := FPOWNED_NONE)
    else FpContext(uc.format, uc.owned, uc.fpstate, Overlay(fp.ext, ext))
  }

  /** sys_sigreturn with the user's pointer to a context. */
  function Sigreturn(cfg: Config, m: Cpu, ucp: Word): Return {
    if !Mapped(m.mem, ucp, 8 * UC_WORDS) then Return(EFAULT, m)
    else
      var uc := ParseUc(ToWords(Load(m.mem, ucp, 8 * UC_WORDS)));
      var extended := HasFpx(uc.tf.flags);
      if uc.tf.flags > MC_FLAG_MASK then Return(EINVAL, m)
      else if !EflSecure(uc.tf.rflags, m.tf.rflags) then Return(EINVAL, m)
      else if uc.tf.cs % 4 != 3 then Return(EINVAL, m)
      else if extended && uc.xlen > cfg.xlen then Return(EINVAL, m)
      else if extended && !Mapped(m.mem, uc.xaddr, uc.xlen) then Return(EFAULT, m)
      else if FpCheck(uc) != 0 then Return(FpCheck(uc), m)
      else
        var ext := if extended then Load(m.mem, uc.xaddr, uc.xlen) else [];
        Return(EJUSTRETURN, Cpu(uc.tf, uc.fsbase, uc.gsbase, CanMask(uc.mask0), uc.mask1,
                                FpInstalled(m.fp, uc, ext), m.mem))
  }

  /** sendsig gets its frame out. */
  ghost predicate Delivers(cfg: Config, m: Cpu, s: Signal) {
    && ConfigOk(cfg) && UserMode(cfg, m) && |s.info| == 10 && s.signo < 0x8000_0000
    && Send(cfg, m, s).Delivered?
  }

  lemma MaskIsMaskable(mask: Word)
    ensures Maskable(CanMask(mask))
  {
    BitOfClear(mask, KILL_BIT, KILL_BIT);
    BitOfClear(ClearBit(mask, KILL_BIT), STOP_BIT, KILL_BIT);
    BitOfClear(ClearBit(mask, KILL_BIT), STOP_BIT, STOP_BIT);
  }

  /** Whatever address a program passes, sys_sigreturn leaves it in user mode with
      no privileged flag bit changed and SIGKILL and SIGSTOP unmasked, and an
      error leaves it as it was. */
  lemma SigreturnStaysUser(cfg: Config, m: Cpu, ucp: Word)
    requires UserMode(cfg, m)
    ensures var r := Sigreturn(cfg, m, ucp);
            && UserMode(cfg, r.m) && EflSecure(m.tf.rflags, r.m.tf.rflags) && r.m.mem == m.mem
            && (r.error != EJUSTRETURN ==> r.m == m)
  {
    if Mapped(m.mem, ucp, 8 * UC_WORDS) {
      MaskIsMaskable(ParseUc(ToWords(Load(m.mem, ucp, 8 * UC_WORDS))).mask0);
    }
  }

  /** The trap and direction bits are clear, every other bit is kept. */
  lemma UntracedBits(rflags: Word, i: nat)
    ensures Bit(Untraced(rflags), i) <==> Bit(rflags, i) && i != PSL_T && i != PSL_D
  {
    BitOfClear(rflags, PSL_T, i);
    BitOfClear(ClearBit(rflags, PSL_T), PSL_D, i);
  }

  lemma UntracedIsSecure(r: Word)
    ensures EflSecure(r, Untraced(r))
  {
    forall i: nat | i < 64 && i !in {0, 2, 4, 6, 7, 8, 10, 11, 14, 16, 18, 21} ensures Bit(r, i) == Bit(Untraced(r), i) {
      UntracedBits(r, i);
    }
  }

  lemma EflTransitive(a: Word, b: Word, c: Word)
    requires EflSecure(a, b) && EflSecure(b, c)
    ensures EflSecure(a, c) && EflSecure(b, a)
  {
  }
}
