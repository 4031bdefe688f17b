/** sendsig and sys_sigreturn as they work on a thread: the trap frame, the
    process control block and user memory are overwritten step by step. */
module SignalThread {
  import opened Common
  import opened SignalFrame
  import opened SignalDelivery

  class Thread {
    var tf: TrapFrame
    var fsbase: Word
    var gsbase: Word
    var mask0: Word
    var mask1: Word
    var fp: FpContext
    var mem: Memory

    function State(): Cpu
      reads this
    {
      Cpu(tf, fsbase, gsbase, mask0, mask1, fp, mem)
    }

    constructor (m: Cpu)
      ensures State() == m
    {
      tf, fsbase, gsbase, mask0, mask1, fp, mem := m.tf, m.fsbase, m.gsbase, m.mask0, m.mask1, m.fp, m.mem;
    }

    /** Where the frame and the extended FPU area go. */
    method AllocateFrame(cfg: Config, signo: Word) returns (xaddr: Word, sfp: Word)
      ensures xaddr == XArea(cfg, FrameTop(cfg, tf.rsp, signo)) && sfp == FrameAt(cfg, FrameTop(cfg, tf.rsp, signo))
    {
      var oonstack := OnAlt(cfg, tf.rsp);
      var sp: Word;
      if cfg.alt && !oonstack && signo in cfg.onAltSigs {
        sp := Add(cfg.ssSp, cfg.ssSize);
      } else {
        sp := Sub(tf.rsp, RED_ZONE);
      }
      if cfg.xlen != 0 {
        sp := Sub(sp, cfg.xlen);
        sp := Down(sp, 64);
      }
      xaddr := sp;
      sp := Sub(sp, FRAME_BYTES);
      sfp := Down(sp, 16);
    }

    /** Load the registers the handler takes its arguments from; si is what the
        frame will say of the signal. */
    method BuildArguments(cfg: Config, s: Signal, sfp: Word) returns (si: seq<Word>)
      requires |tf.gpr| == 15 && |s.info| == 10 && s.signo < 0x8000_0000
      modifies this`tf
      ensures tf == old(tf).(gpr := ArgRegs(cfg, old(tf.gpr), s, sfp)) && si == SigInfo(cfg, s)
    {
      tf := tf.(gpr := tf.gpr[RDI := s.signo]);
      tf := tf.(gpr := tf.gpr[RDX := Add(sfp, UC_OFFSET)]);
      si := [0, 0, 0, 0, 0, 0, 0, 0, 0, 0];
      if s.signo in cfg.siginfoSigs {
        tf := tf.(gpr := tf.gpr[RSI := Add(sfp, UC_OFFSET + 8 * UC_WORDS)]);
        si := s.info[0 := s.info[0] - s.info[0] % 0x1_0000_0000 + s.signo];
      } else {
        tf := tf.(gpr := tf.gpr[RSI := s.code]);
      }
      tf := tf.(gpr := tf.gpr[RCX := s.addr]);
    }

    /** sendsig */
    method SendSig(cfg: Config, s: Signal) returns (killed: bool)
      requires |tf.gpr| == 15 && |fp.state| == 64 && |fp.ext| == cfg.xlen
      requires |s.info| == 10 && s.signo < 0x8000_0000
      modifies this
      ensures Send(cfg, old(State()), s) == if killed then Killed else Delivered(State())
    {
      var xaddr, sfp := AllocateFrame(cfg, s.signo);
      var uc := SavedContext(cfg, State(), xaddr);
      var si := BuildArguments(cfg, s, sfp);

      if !Mapped(mem, sfp, FRAME_BYTES) {
        return true;
      }
      mem := Store(mem, sfp, ToBytes(FrameWords(s.catcher, uc, si)));
      if cfg.xlen != 0 {
        if !Mapped(mem, xaddr, cfg.xlen) {
          return true;
        }
        mem := Store(mem, xaddr, fp.ext);
      }

      tf := tf.(rsp := sfp, rip := cfg.sigcode, rflags := Untraced(tf.rflags), cs := cfg.ucodesel,
                esds := cfg.udatasel + 0x1_0000 * cfg.udatasel, ss := cfg.udatasel,
                fsgs := cfg.ufssel + 0x1_0000 * cfg.ugssel, flags := TF_HASSEGS);
      killed := false;
    }

    /** sys_sigreturn */
    method SysSigreturn(cfg: Config, ucp: Word) returns (error: int)
      modifies this
      ensures Return(error, State()) == Sigreturn(cfg, old(State()), ucp)
      ensures error != EJUSTRETURN ==> unchanged(this)
    {
      if !Mapped(mem, ucp, 8 * UC_WORDS) {
        return EFAULT;
      }
      var uc := ParseUc(ToWords(Load(mem, ucp, 8 * UC_WORDS)));
      if uc.tf.flags > MC_FLAG_MASK {
        return EINVAL;
      }
      if !EflSecure(uc.tf.rflags, tf.rflags) {
        return EINVAL;
      }
      if uc.tf.cs % 4 != 3 {
        return EINVAL;
      }
      var ext: seq<Byte> := [];
      if HasFpx(uc.tf.flags) {
        if uc.xlen > cfg.xlen {
          return EINVAL;
        }
        if !Mapped(mem, uc.xaddr, uc.xlen) {
          return EFAULT;
        }
        ext := Load(mem, uc.xaddr, uc.xlen);
      }
      var ret := FpCheck(uc);
      if ret != 0 {
        return ret;
      }
      fp := FpInstalled(fp, uc, ext);
      tf := uc.tf;
      fsbase := uc.fsbase;
      gsbase := uc.gsbase;
      mask0, mask1 := CanMask(uc.mask0), uc.mask1;
      error := EJUSTRETURN;
    }
  }
}
