/** What sendsig writes and sys_sigreturn reads, by place and by value: the
    handler's registers, the words of the frame, the outcome of a return. All
    places are byte offsets from the frame or from the context in it. */
module SignalLayout {
  import opened Bits
  import opened SignalFrame
  import opened SignalDelivery
  import opened SignalGeometry
  import opened SignalNesting

  // ----- words in memory

  /** The 64-bit word at an address. */
  ghost predicate WordIs(mem: Memory, a: int, w: int) {
    Mapped(mem, a, 8) && Value(Load(mem, a, 8)) == w
  }

  function Four(a: int, b: int, c: int, d: int): int {
    a + 0x100 * b + 0x1_0000 * c + 0x100_0000 * d
  }

  lemma ValueStep(bs: seq<Byte>, k: nat)
    requires k < |bs|
    ensures Value(bs[k..]) == bs[k] + 256 * Value(bs[k + 1..])
  {
    assert bs[k..][1..] == bs[k + 1..];
  }

  lemma HalfValue(bs: seq<Byte>, k: nat)
    requires k + 4 <= |bs|
    ensures Value(bs[k..]) == Four(bs[k], bs[k + 1], bs[k + 2], bs[k + 3]) + 0x1_0000_0000 * Value(bs[k + 4..])
  {
    ValueStep(bs, k);
    ValueStep(bs, k + 1);
    ValueStep(bs, k + 2);
    ValueStep(bs, k + 3);
  }

  lemma EightBytes(bs: seq<Byte>)
    requires |bs| == 8
    ensures Value(bs) == Four(bs[0], bs[1], bs[2], bs[3]) + 0x1_0000_0000 * Four(bs[4], bs[5], bs[6], bs[7])
  {
    assert bs[0..] == bs && Value(bs[8..]) == 0;
    HalfValue(bs, 0);
    HalfValue(bs, 4);
  }

  /** A word lies in memory with its low byte first. */
  lemma LowByteFirst(mem: Memory, a: int, w: int)
    requires WordIs(mem, a, w)
    ensures w == Four(mem[a], mem[a + 1], mem[a + 2], mem[a + 3])
                 + 0x1_0000_0000 * Four(mem[a + 4], mem[a + 5], mem[a + 6], mem[a + 7])
  {
    EightBytes(Load(mem, a, 8));
  }

  /** Word k of the frame. */
  lemma FrameWord(mem: Memory, l: Live, k: nat)
    requires Intact(mem, l) && k < 122
    ensures WordIs(mem, l.sfp + 8 * k, FrameWords(l.handler, l.uc, l.si)[k])
  {
    LoadPart(mem, l.sfp, FRAME_BYTES, 8 * k, 8);
    ValueAt(FrameWords(l.handler, l.uc, l.si), k);
  }

  /** Word k of the context. */
  lemma ContextWord(mem: Memory, ucp: int, k: nat)
    requires Mapped(mem, ucp, 880) && k < 110
    ensures WordIs(mem, ucp + 8 * k, ToWords(Load(mem, ucp, 880))[k])
  {
    LoadPart(mem, ucp, 880, 8 * k, 8);
    WordAt(Load(mem, ucp, 880), k);
  }

  // ----- where the fields are

  lemma HeadFields(uc: UContext)
    requires WellSized(uc)
    ensures var ws := UcWords(uc);
            && ws[0] == uc.mask0 && ws[1] == uc.mask1 && ws[2] == uc.onstack
            && (forall i | 0 <= i < 15 :: ws[3 + i] == uc.tf.gpr[i])
            && ws[18] == uc.tf.trapno + 0x1_0000_0000 * uc.tf.fsgs && ws[19] == uc.tf.addr
            && ws[20] == uc.tf.flags + 0x1_0000_0000 * uc.tf.esds && ws[21] == uc.tf.err && ws[22] == uc.tf.rip
            && ws[23] == uc.tf.cs && ws[24] == uc.tf.rflags && ws[25] == uc.tf.rsp && ws[26] == uc.tf.ss
  {
    var ws, head, regs := UcWords(uc), UcHead(uc), RegWords(uc.tf);
    assert forall i | 0 <= i < 27 :: ws[i] == head[i];
    assert forall i | 0 <= i < 24 :: head[3 + i] == regs[i];
    assert forall i | 0 <= i < 9 :: regs[15 + i] == FrameTailWords(uc.tf)[i];
  }

  lemma TailFields(uc: UContext)
    requires WellSized(uc)
    ensures var ws := UcWords(uc);
            && ws[27] == 800 && ws[28] == uc.format && ws[29] == uc.owned
            && (forall i | 0 <= i < 64 :: ws[30 + i] == uc.fpstate[i])
            && ws[94] == uc.fsbase && ws[95] == uc.gsbase && ws[96] == uc.xaddr && ws[97] == uc.xlen
            && (forall i | 0 <= i < 3 :: ws[103 + i] == uc.stack[i])
  {
    var ws, tail := UcWords(uc), UcTail(uc);
    assert forall i | 0 <= i < 83 :: ws[27 + i] == tail[i];
  }

  lemma FrameIsContext(handler: Word, uc: UContext, si: seq<Word>)
    requires WellSized(uc) && |si| == 10
    ensures var ws := FrameWords(handler, uc, si);
            && ws[0] == handler
            && (forall i | 0 <= i < 110 :: ws[2 + i] == UcWords(uc)[i])
            && (forall i | 0 <= i < 10 :: ws[112 + i] == si[i])
  {
  }

  // ----- what sendsig does

  /** The frame is the highest one, 16-byte aligned, below the extended FPU
      area, and that is the highest one, 64-byte aligned, below the top of the
      alternate stack or 128 bytes below the stack pointer. */
  lemma FramePlace(cfg: Config, m: Cpu, s: Signal)
    requires Delivers(cfg, m, s)
    ensures var l, rsp := NewLive(cfg, m, s), m.tf.rsp;
            var onAlt := cfg.alt && cfg.ssSp <= rsp < cfg.ssSp + cfg.ssSize;
            var switch := cfg.alt && !onAlt && s.signo in cfg.onAltSigs;
            && l.top == (if switch then cfg.ssSp + cfg.ssSize else rsp - 128) && (l.alt <==> onAlt || switch)
            && (if cfg.xlen == 0 then l.xaddr == l.top
                else l.xaddr % 64 == 0 && l.xaddr + cfg.xlen <= l.top < l.xaddr + cfg.xlen + 64)
            && l.sfp % 16 == 0 && l.sfp + 976 <= l.xaddr < l.sfp + 976 + 16
  {
    NewFrameAligned(cfg, m, s);
    DeliveredIsMapped(cfg, m, s);
    FrameBelowTop(cfg, NewLive(cfg, m, s).top, m.mem);
  }

  lemma FlagsUntraced(rflags: Word)
    ensures forall i: nat :: Bit(Untraced(rflags), i) <==> Bit(rflags, i) && i != 8 && i != 10
  {
    forall i: nat ensures Bit(Untraced(rflags), i) <==> Bit(rflags, i) && i != 8 && i != 10 {
      UntracedBits(rflags, i);
    }
  }

  /** A handler starts at its frame, in the signal trampoline, with its four
      arguments in rdi, rsi, rdx and rcx and the other general registers as
      they were, the configured selectors, and the trap and direction flags
      clear but every other flag as it was. */
  lemma HandlerStarts(cfg: Config, m: Cpu, s: Signal)
    requires Delivers(cfg, m, s)
    ensures var tf, l := Send(cfg, m, s).m.tf, NewLive(cfg, m, s);
            && tf.rsp == l.sfp && tf.rip == cfg.sigcode && |tf.gpr| == 15
            && tf.gpr[0] == s.signo
            && tf.gpr[1] == (if s.signo in cfg.siginfoSigs then l.sfp + 896 else s.code)
            && tf.gpr[2] == l.sfp + 16
            && tf.gpr[3] == s.addr
            && (forall i | 4 <= i < 15 :: tf.gpr[i] == m.tf.gpr[i])
            && tf.cs == cfg.ucodesel && tf.ss == cfg.udatasel
            && tf.esds == cfg.udatasel + 0x1_0000 * cfg.udatasel
            && tf.fsgs == cfg.ufssel + 0x1_0000 * cfg.ugssel
            && tf.flags == 1 && tf.trapno == m.tf.trapno && tf.addr == m.tf.addr && tf.err == m.tf.err
            && forall i: nat :: Bit(tf.rflags, i) <==> Bit(m.tf.rflags, i) && i != 8 && i != 10
  {
    NewFrameAligned(cfg, m, s);
    FlagsUntraced(m.tf.rflags);
  }

  lemma SiginfoInFrame(mem: Memory, cfg: Config, s: Signal, l: Live, k: nat)
    requires |s.info| == 10 && s.signo < 0x8000_0000 && s.signo in cfg.siginfoSigs && k < 10
    requires Intact(mem, l) && l.si == SigInfo(cfg, s)
    ensures k == 0 ==> WordIs(mem, l.sfp + 896, s.info[0] - s.info[0] % 0x1_0000_0000 + s.signo)
    ensures k > 0 ==> WordIs(mem, l.sfp + 896 + 8 * k, s.info[k])
  {
    FrameIsContext(l.handler, l.uc, l.si);
    FrameWord(mem, l, 112 + k);
  }

  /** At the frame is the function to call and, for a signal that asked for it,
      896 bytes on, the siginfo that came with it, with the signal number in
      the low half of the first word. */
  ghost predicate FrameTells(mem: Memory, sfp: int, siginfo: bool, s: Signal) {
    && |s.info| == 10 && WordIs(mem, sfp, s.catcher)
    && (siginfo ==>
          && WordIs(mem, sfp + 896, s.info[0] - s.info[0] % 0x1_0000_0000 + s.signo)
          && forall k: nat | 0 < k < 10 :: WordIs(mem, sfp + 896 + 8 * k, s.info[k]))
  }

  lemma FrameOfSignal(mem: Memory, cfg: Config, s: Signal, l: Live)
    requires |s.info| == 10 && s.signo < 0x8000_0000
    requires Intact(mem, l) && l.si == SigInfo(cfg, s) && l.handler == s.catcher
    ensures FrameTells(mem, l.sfp, s.signo in cfg.siginfoSigs, s)
  {
    FrameIsContext(l.handler, l.uc, l.si);
    FrameWord(mem, l, 0);
    if s.signo in cfg.siginfoSigs {
      SiginfoInFrame(mem, cfg, s, l, 0);
      forall k: nat | 0 < k < 10 ensures WordIs(mem, l.sfp + 896 + 8 * k, s.info[k]) {
        SiginfoInFrame(mem, cfg, s, l, k);
      }
    }
  }

  /** In memory the handler finds at its stack pointer the function to call
      and, if its signal asked for it, siginfo where its second argument points. */
  lemma HandlerFinds(cfg: Config, m: Cpu, s: Signal)
    requires Delivers(cfg, m, s)
    ensures FrameTells(Send(cfg, m, s).m.mem, NewLive(cfg, m, s).sfp, s.signo in cfg.siginfoSigs, s)
  {
    NewFrameIntact(cfg, m, s);
    FrameOfSignal(Send(cfg, m, s).m.mem, cfg, s, NewLive(cfg, m, s));
  }

  /** Word k of the context inside the frame. */
  lemma SavedWord(mem: Memory, l: Live, k: nat)
    requires Intact(mem, l) && k < 110
    ensures WordIs(mem, l.sfp + 16 + 8 * k, UcWords(l.uc)[k])
  {
    FrameIsContext(l.handler, l.uc, l.si);
    FrameWord(mem, l, 2 + k);
  }

  lemma SavedRegisters(mem: Memory, l: Live)
    requires Intact(mem, l)
    ensures var tf := l.uc.tf;
            && WordIs(mem, l.sfp + 16, l.uc.mask0) && WordIs(mem, l.sfp + 24, l.uc.mask1)
            && (forall i: nat | i < 15 :: WordIs(mem, l.sfp + 40 + 8 * i, tf.gpr[i]))
            && WordIs(mem, l.sfp + 160, tf.trapno + 0x1_0000_0000 * tf.fsgs) && WordIs(mem, l.sfp + 168, tf.addr)
            && WordIs(mem, l.sfp + 176, tf.flags + 0x1_0000_0000 * tf.esds) && WordIs(mem, l.sfp + 184, tf.err)
            && WordIs(mem, l.sfp + 192, tf.rip) && WordIs(mem, l.sfp + 200, tf.cs)
            && WordIs(mem, l.sfp + 208, tf.rflags) && WordIs(mem, l.sfp + 216, tf.rsp)
            && WordIs(mem, l.sfp + 224, tf.ss)
  {
    HeadFields(l.uc);
    forall k: nat | k < 27 ensures WordIs(mem, l.sfp + 16 + 8 * k, UcWords(l.uc)[k]) {
      SavedWord(mem, l, k);
    }
    forall i: nat | i < 15 ensures WordIs(mem, l.sfp + 40 + 8 * i, l.uc.tf.gpr[i]) {
      SavedWord(mem, l, 3 + i);
    }
  }

  lemma SavedRest(mem: Memory, l: Live)
    requires Intact(mem, l)
    ensures && WordIs(mem, l.sfp + 32, l.uc.onstack) && WordIs(mem, l.sfp + 232, 800)
            && WordIs(mem, l.sfp + 240, l.uc.format) && WordIs(mem, l.sfp + 248, l.uc.owned)
            && (forall i: nat | i < 64 :: WordIs(mem, l.sfp + 256 + 8 * i, l.uc.fpstate[i]))
            && WordIs(mem, l.sfp + 768, l.uc.fsbase) && WordIs(mem, l.sfp + 776, l.uc.gsbase)
            && WordIs(mem, l.sfp + 784, l.uc.xaddr) && WordIs(mem, l.sfp + 792, l.uc.xlen)
            && (forall i: nat | i < 3 :: WordIs(mem, l.sfp + 840 + 8 * i, l.uc.stack[i]))
            && (forall i: nat | i < |l.ext| :: l.xaddr + i in mem && mem[l.xaddr + i] == l.ext[i])
  {
    HeadFields(l.uc);
    TailFields(l.uc);
    SavedWord(mem, l, 2);
    forall k: nat | 27 <= k < 110 ensures WordIs(mem, l.sfp + 16 + 8 * k, UcWords(l.uc)[k]) {
      SavedWord(mem, l, k);
    }
    forall i: nat | i < 64 ensures WordIs(mem, l.sfp + 256 + 8 * i, l.uc.fpstate[i]) {
      SavedWord(mem, l, 30 + i);
    }
    forall i: nat | i < 3 ensures WordIs(mem, l.sfp + 840 + 8 * i, l.uc.stack[i]) {
      SavedWord(mem, l, 103 + i);
    }
    forall i: nat | i < |l.ext| ensures l.xaddr + i in mem && mem[l.xaddr + i] == l.ext[i] {
      assert Load(mem, l.xaddr, |l.ext|)[i] == l.ext[i];
    }
  }

  lemma FpxMeans(flags: Half)
    requires flags <= 7
    ensures HasFpx(flags) <==> flags >= 4
  {
  }

  /** The saved context is the interrupted one, with the extended-state flag
      and the state of the alternate stack added. */
  lemma ContextSaved(cfg: Config, m: Cpu, s: Signal)
    requires Delivers(cfg, m, s)
    ensures var uc, l := NewLive(cfg, m, s).uc, NewLive(cfg, m, s);
            var onAlt := cfg.alt && cfg.ssSp <= m.tf.rsp < cfg.ssSp + cfg.ssSize;
            && uc.mask0 == m.mask0 && uc.mask1 == m.mask1 && uc.fsbase == m.fsbase && uc.gsbase == m.gsbase
            && uc.tf == m.tf.(flags := if cfg.xlen == 0 || m.tf.flags >= 4 then m.tf.flags else m.tf.flags + 4)
            && uc.format == m.fp.format && uc.owned == m.fp.owned && uc.fpstate == m.fp.state && l.ext == m.fp.ext
            && uc.xlen == cfg.xlen && uc.xaddr == (if cfg.xlen == 0 then 0 else l.xaddr)
            && uc.onstack == (if onAlt then 1 else 0)
            && uc.stack == [cfg.ssSp, cfg.ssSize, if !cfg.alt then 4 else if onAlt then 1 else 0]
  {
    FpxMeans(m.tf.flags);
  }

  // ----- what sys_sigreturn does

  /** A context read as words. */
  lemma ContextFields(ws: seq<Word>)
    requires |ws| == 110
    ensures var uc := ParseUc(ws);
            && uc.mask0 == ws[0] && uc.mask1 == ws[1]
            && (forall i | 0 <= i < 15 :: uc.tf.gpr[i] == ws[3 + i])
            && uc.tf.trapno == ws[18] % 0x1_0000_0000 && uc.tf.fsgs == ws[18] / 0x1_0000_0000 && uc.tf.addr == ws[19]
            && uc.tf.flags == ws[20] % 0x1_0000_0000 && uc.tf.esds == ws[20] / 0x1_0000_0000 && uc.tf.err == ws[21]
            && uc.tf.rip == ws[22] && uc.tf.cs == ws[23] && uc.tf.rflags == ws[24] && uc.tf.rsp == ws[25]
            && uc.tf.ss == ws[26] && uc.format == ws[28] && uc.owned == ws[29]
            && (forall i | 0 <= i < 64 :: uc.fpstate[i] == ws[30 + i])
            && uc.fsbase == ws[94] && uc.gsbase == ws[95] && uc.xaddr == ws[96] && uc.xlen == ws[97]
  {
  }

  /** The words of the context that decide about a return. */
  lemma DecidingWords(mem: Memory, ucp: int, fl: Word, rf: Word, cs: Word, format: Word, owned: Word,
                      xaddr: Word, xlen: Word)
    requires Mapped(mem, ucp, 880)
    requires WordIs(mem, ucp + 160, fl) && WordIs(mem, ucp + 184, cs) && WordIs(mem, ucp + 192, rf)
    requires WordIs(mem, ucp + 224, format) && WordIs(mem, ucp + 232, owned)
    requires WordIs(mem, ucp + 768, xaddr) && WordIs(mem, ucp + 776, xlen)
    ensures var uc := ParseUc(ToWords(Load(mem, ucp, 880)));
            && uc.tf.flags == fl % 0x1_0000_0000 && uc.tf.cs == cs && uc.tf.rflags == rf
            && uc.format == format && uc.owned == owned && uc.xaddr == xaddr && uc.xlen == xlen
  {
    ContextFields(ToWords(Load(mem, ucp, 880)));
    ContextWord(mem, ucp, 20);
    ContextWord(mem, ucp, 23);
    ContextWord(mem, ucp, 24);
    ContextWord(mem, ucp, 28);
    ContextWord(mem, ucp, 29);
    ContextWord(mem, ucp, 96);
    ContextWord(mem, ucp, 97);
  }

  lemma SecureMeans(ef: Word, oef: Word, agree: bool)
    requires agree <==> forall i | 0 <= i < 64 && i !in {0, 2, 4, 6, 7, 8, 10, 11, 14, 16, 18, 21} ::
                          Bit(ef, i) == Bit(oef, i)
    ensures agree <==> EflSecure(ef, oef)
  {
    if agree {
      assert EflSecure(ef, oef);
    }
  }

  lemma Verdict(cfg: Config, m: Cpu, ucp: Word, uc: UContext)
    requires Mapped(m.mem, ucp, 880) && uc == ParseUc(ToWords(Load(m.mem, ucp, 880)))
    ensures var r, extended := Sigreturn(cfg, m, ucp), uc.tf.flags >= 4;
            var sane := uc.tf.flags <= 7 && EflSecure(uc.tf.rflags, m.tf.rflags) && uc.tf.cs % 4 == 3
                        && (extended ==> uc.xlen <= cfg.xlen);
            var readable := extended ==> Mapped(m.mem, uc.xaddr, uc.xlen);
            var fpOk := uc.format == 0x10000 || (uc.format == 0x10002 && 0x20000 <= uc.owned <= 0x20002);
            && r.error == (if sane && readable && fpOk then -2 else if sane && !readable then 14 else 22)
            && (r.error != -2 ==> r.m == m)
  {
    if uc.tf.flags <= 7 {
      FpxMeans(uc.tf.flags);
    }
  }

  /** sys_sigreturn, on a context at any address, succeeds exactly if the
      flags of the context are known ones, rflags agrees with the present one
      outside the bits a user may change, cs asks for user mode, the extended
      state is no larger than the CPU's and can be read, and the format and the
      owner of the FPU state are known ones. It fails with EFAULT exactly if
      the context or, all else up to there being right, the extended state
      cannot be read, otherwise with EINVAL, and then changes nothing. */
  lemma SigreturnExact(cfg: Config, m: Cpu, ucp: Word, fl: Word, rf: Word, cs: Word, format: Word, owned: Word,
                       xaddr: Word, xlen: Word, agree: bool)
    requires Mapped(m.mem, ucp, 880)
    requires WordIs(m.mem, ucp + 160, fl) && WordIs(m.mem, ucp + 184, cs) && WordIs(m.mem, ucp + 192, rf)
    requires WordIs(m.mem, ucp + 224, format) && WordIs(m.mem, ucp + 232, owned)
    requires WordIs(m.mem, ucp + 768, xaddr) && WordIs(m.mem, ucp + 776, xlen)
    requires agree <==> forall i | 0 <= i < 64 && i !in {0, 2, 4, 6, 7, 8, 10, 11, 14, 16, 18, 21} ::
                          Bit(rf, i) == Bit(m.tf.rflags, i)
    ensures var r, flags := Sigreturn(cfg, m, ucp), fl % 0x1_0000_0000;
            var sane := flags <= 7 && agree && cs % 4 == 3 && (flags >= 4 ==> xlen <= cfg.xlen);
            var readable := flags >= 4 ==> Mapped(m.mem, xaddr, xlen);
            var fpOk := format == 0x10000 || (format == 0x10002 && 0x20000 <= owned <= 0x20002);
            && r.error == (if sane && readable && fpOk then -2 else if sane && !readable then 14 else 22)
            && (r.error != -2 ==> r.m == m)
  {
    DecidingWords(m.mem, ucp, fl, rf, cs, format, owned, xaddr, xlen);
    SecureMeans(rf, m.tf.rflags, agree);
    Verdict(cfg, m, ucp, ParseUc(ToWords(Load(m.mem, ucp, 880))));
  }

  /** Without a readable context there is nothing to return to. */
  lemma ContextUnreadable(cfg: Config, m: Cpu, ucp: Word)
    requires !Mapped(m.mem, ucp, 880)
    ensures Sigreturn(cfg, m, ucp) == Return(14, m)
  {
  }

  ghost predicate RegistersAre(mem: Memory, ucp: int, tf: TrapFrame) {
    && |tf.gpr| == 15 && (forall i: nat | i < 15 :: WordIs(mem, ucp + 24 + 8 * i, tf.gpr[i]))
    && WordIs(mem, ucp + 144, tf.trapno + 0x1_0000_0000 * tf.fsgs) && WordIs(mem, ucp + 152, tf.addr)
    && WordIs(mem, ucp + 160, tf.flags + 0x1_0000_0000 * tf.esds) && WordIs(mem, ucp + 168, tf.err)
    && WordIs(mem, ucp + 176, tf.rip) && WordIs(mem, ucp + 184, tf.cs) && WordIs(mem, ucp + 192, tf.rflags)
    && WordIs(mem, ucp + 200, tf.rsp) && WordIs(mem, ucp + 208, tf.ss)
  }

  lemma RegistersRead(mem: Memory, ucp: int)
    requires Mapped(mem, ucp, 880)
    ensures RegistersAre(mem, ucp, ParseUc(ToWords(Load(mem, ucp, 880))).tf)
  {
    var ws := ToWords(Load(mem, ucp, 880));
    ContextFields(ws);
    forall k: nat | k < 27 ensures WordIs(mem, ucp + 8 * k, ws[k]) {
      ContextWord(mem, ucp, k);
    }
    forall i: nat | i < 15 ensures WordIs(mem, ucp + 24 + 8 * i, ws[3 + i]) {
      ContextWord(mem, ucp, 3 + i);
    }
  }

  lemma MaskBits(mask: Word)
    ensures forall i: nat :: Bit(CanMask(mask), i) <==> Bit(mask, i) && i != 8 && i != 16
  {
    forall i: nat ensures Bit(CanMask(mask), i) <==> Bit(mask, i) && i != 8 && i != 16 {
      BitOfClear(mask, 8, i);
      BitOfClear(ClearBit(mask, 8), 16, i);
    }
  }

  /** A return that succeeds loads every register, both segment bases and the
      signal mask from the context, except that signals 9 and 17 stay unmasked. */
  lemma SigreturnInstalls(cfg: Config, m: Cpu, ucp: Word, mask: Word)
    requires Mapped(m.mem, ucp, 880) && WordIs(m.mem, ucp, mask) && Sigreturn(cfg, m, ucp).error == -2
    ensures var r := Sigreturn(cfg, m, ucp).m;
            && RegistersAre(m.mem, ucp, r.tf) && r.mem == m.mem
            && WordIs(m.mem, ucp + 752, r.fsbase) && WordIs(m.mem, ucp + 760, r.gsbase)
            && WordIs(m.mem, ucp + 8, r.mask1)
            && (forall i: nat :: Bit(r.mask0, i) <==> Bit(mask, i) && i != 8 && i != 16)
  {
    RegistersRead(m.mem, ucp);
    ContextFields(ToWords(Load(m.mem, ucp, 880)));
    ContextWord(m.mem, ucp, 0);
    ContextWord(m.mem, ucp, 1);
    ContextWord(m.mem, ucp, 94);
    ContextWord(m.mem, ucp, 95);
    MaskBits(mask);
  }

  /** FPU state that comes from a context, and extended state whose first bytes
      come from memory and whose other bytes were there before. */
  ghost predicate FpuLoaded(mem: Memory, ucp: int, xaddr: int, loaded: nat, was: seq<Byte>, fp: FpContext) {
    && |fp.state| == 64 && (forall i: nat | i < 64 :: WordIs(mem, ucp + 240 + 8 * i, fp.state[i]))
    && loaded <= |was| == |fp.ext|
    && (forall i: nat | i < loaded :: xaddr + i in mem && fp.ext[i] == mem[xaddr + i])
    && (forall i: nat | loaded <= i < |was| :: fp.ext[i] == was[i])
  }

  lemma FpuRead(mem: Memory, ucp: int, xaddr: int, loaded: nat, was: seq<Byte>, fp: FpContext)
    requires Mapped(mem, ucp, 880) && fp.state == ParseUc(ToWords(Load(mem, ucp, 880))).fpstate
    requires Mapped(mem, xaddr, loaded) && loaded <= |was| && fp.ext == Overlay(was, Load(mem, xaddr, loaded))
    ensures FpuLoaded(mem, ucp, xaddr, loaded, was, fp)
  {
    var ws := ToWords(Load(mem, ucp, 880));
    ContextFields(ws);
    forall i: nat | i < 64 ensures WordIs(mem, ucp + 240 + 8 * i, fp.state[i]) {
      ContextWord(mem, ucp, 30 + i);
    }
  }

  lemma FpuSet(cfg: Config, m: Cpu, ucp: Word, uc: UContext, loaded: nat)
    requires FpOk(cfg, m.fp) && Mapped(m.mem, ucp, 880) && uc == ParseUc(ToWords(Load(m.mem, ucp, 880)))
    requires Sigreturn(cfg, m, ucp).error == -2 && loaded == if uc.tf.flags >= 4 then uc.xlen else 0
    ensures Mapped(m.mem, uc.xaddr, loaded) && loaded <= |m.fp.ext|
    ensures Sigreturn(cfg, m, ucp).m.fp == FpInstalled(m.fp, uc, Load(m.mem, uc.xaddr, loaded))
  {
    Verdict(cfg, m, ucp, uc);
    FpxMeans(uc.tf.flags);
    assert loaded == 0 ==> Load(m.mem, uc.xaddr, loaded) == [];
  }

  /** It leaves the FPU alone, drops its state or loads the state saved in the
      context, as the format and the owner say; the extended state is loaded
      over the first bytes of the present one. */
  lemma SigreturnFpu(cfg: Config, m: Cpu, ucp: Word, uc: UContext)
    requires FpOk(cfg, m.fp) && Mapped(m.mem, ucp, 880) && uc == ParseUc(ToWords(Load(m.mem, ucp, 880)))
    requires Sigreturn(cfg, m, ucp).error == -2
    ensures var fp := Sigreturn(cfg, m, ucp).m.fp;
            && (uc.format == 0x10000 ==> fp == m.fp)
            && (uc.format == 0x10002 && uc.owned == 0x20000 ==> fp == m.fp.(owned := 0x20000))
            && (uc.format == 0x10002 && uc.owned != 0x20000 ==>
                  && fp.format == 0x10002 && fp.owned == uc.owned
                  && FpuLoaded(m.mem, ucp, uc.xaddr, if uc.tf.flags >= 4 then uc.xlen else 0, m.fp.ext, fp))
  {
    var loaded := if uc.tf.flags >= 4 then uc.xlen else 0;
    FpuSet(cfg, m, ucp, uc, loaded);
    if uc.format == 0x10002 && uc.owned != 0x20000 {
      FpuRead(m.mem, ucp, uc.xaddr, loaded, m.fp.ext, Sigreturn(cfg, m, ucp).m.fp);
    }
  }
}
