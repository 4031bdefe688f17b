/** The signal frame of amd64: its fields, its layout in words, the bytes of
    user memory it is copied to, and reading it back. */
module SignalFrame {
  import opened Common

  type Word = x: int | 0 <= x < 0x1_0000_0000_0000_0000
  type Byte = x: int | 0 <= x < 256

  type Half = x: int | 0 <= x < 0x1_0000_0000

  /** Two 32-bit halves of a word. */
  function Join(lo: Half, hi: Half): Word {
    lo + 0x1_0000_0000 * hi
  }

  function Lo(w: Word): Half {
    w % 0x1_0000_0000
  }

  function Hi(w: Word): Half {
    w / 0x1_0000_0000
  }

  /** struct trapframe. fsgs packs tf_fs and tf_gs, esds packs tf_es and tf_ds;
      gpr holds tf_rdi to tf_r15 in order. */
  datatype TrapFrame = TrapFrame(gpr: seq<Word>, trapno: Half, fsgs: Half, addr: Word, flags: Half, esds: Half,
                                 err: Word, rip: Word, cs: Word, rflags: Word, rsp: Word, ss: Word)

  const RDI := 0
  const RSI := 1
  const RDX := 2
  const RCX := 3

  /** What get_fpcontext and set_fpcontext exchange with the FPU, uninterpreted. */
  datatype FpContext = FpContext(format: Word, owned: Word, state: seq<Word>, ext: seq<Byte>)

  datatype UContext = UContext(mask0: Word, mask1: Word, onstack: Word, tf: TrapFrame,
                               format: Word, owned: Word, fpstate: seq<Word>, fsbase: Word, gsbase: Word,
                               xaddr: Word, xlen: Word, stack: seq<Word>)

  ghost predicate WellSized(uc: UContext) {
    |uc.tf.gpr| == 15 && |uc.fpstate| == 64 && |uc.stack| == 3
  }

  const MCONTEXT_BYTES := 800
  const UC_WORDS := 110
  const FRAME_WORDS := 122
  const FRAME_BYTES := 976
  const UC_OFFSET := 16

  function FrameTailWords(tf: TrapFrame): (ws: seq<Word>)
    ensures |ws| == 9
  {
    [Join(tf.trapno, tf.fsgs), tf.addr, Join(tf.flags, tf.esds), tf.err, tf.rip, tf.cs, tf.rflags, tf.rsp, tf.ss]
  }

  function RegWords(tf: TrapFrame): (ws: seq<Word>)
    requires |tf.gpr| == 15
    ensures |ws| == 24
  {
    tf.gpr + FrameTailWords(tf)
  }

  function ParseRegs(ws: seq<Word>): (tf: TrapFrame)
    requires |ws| == 24
    ensures |tf.gpr| == 15
  {
    var tail := ws[15..];
    TrapFrame(ws[..15], Lo(tail[0]), Hi(tail[0]), tail[1], Lo(tail[2]), Hi(tail[2]), tail[3],
              tail[4], tail[5], tail[6], tail[7], tail[8])
  }

  lemma RegsRoundTrip(tf: TrapFrame)
    requires |tf.gpr| == 15
    ensures ParseRegs(RegWords(tf)) == tf
  {
    assert RegWords(tf)[..15] == tf.gpr && RegWords(tf)[15..] == FrameTailWords(tf);
  }

  /** The signal mask, mc_onstack and the trap frame. */
  function UcHead(uc: UContext): (ws: seq<Word>)
    requires WellSized(uc)
    ensures |ws| == 27
  {
    [uc.mask0, uc.mask1, uc.onstack] + RegWords(uc.tf)
  }

  /** From mc_len on: the FPU fields, the segment bases and uc_stack. */
  function UcTail(uc: UContext): (ws: seq<Word>)
    requires WellSized(uc)
    ensures |ws| == 83
  {
    [MCONTEXT_BYTES, uc.format, uc.owned] + uc.fpstate
    + [uc.fsbase, uc.gsbase, uc.xaddr, uc.xlen, 0, 0, 0, 0, 0] + uc.stack + [0, 0, 0, 0]
  }

  function UcWords(uc: UContext): (ws: seq<Word>)
    requires WellSized(uc)
    ensures |ws| == UC_WORDS
  {
    UcHead(uc) + UcTail(uc)
  }

  function ParseUc(ws: seq<Word>): (uc: UContext)
    requires |ws| == UC_WORDS
    ensures WellSized(uc)
  {
    var head, tail := ws[..27], ws[27..];
    UContext(head[0], head[1], head[2], ParseRegs(head[3..]), tail[1], tail[2], tail[3..67],
             tail[67], tail[68], tail[69], tail[70], tail[76..79])
  }

  lemma UcRoundTrip(uc: UContext)
    requires WellSized(uc)
    ensures ParseUc(UcWords(uc)) == uc
  {
    var ws, head, tail := UcWords(uc), UcHead(uc), UcTail(uc);
    assert ws[..27] == head && ws[27..] == tail;
    assert head[3..] == RegWords(uc.tf);
    RegsRoundTrip(uc.tf);
    assert tail[3..67] == uc.fpstate;
    assert tail[76..79] == uc.stack;
  }

  function FrameWords(handler: Word, uc: UContext, si: seq<Word>): (ws: seq<Word>)
    requires WellSized(uc) && |si| == 10
    ensures |ws| == FRAME_WORDS
  {
    [handler, 0] + UcWords(uc) + si
  }

  // ----- little-endian bytes

  const WORD_BYTES: nat := 8

  function LittleEndian(w: int, n: nat): (bs: seq<Byte>)
    requires 0 <= w
    ensures |bs| == n
  {
    if n == 0 then [] else [w % 256] + LittleEndian(w / 256, n - 1)
  }

  function Pow256(n: nat): (p: nat)
    ensures p > 0
  {
    if n == 0 then 1 else 256 * Pow256(n - 1)
  }

  function Value(bs: seq<Byte>): (w: int)
    ensures 0 <= w < Pow256(|bs|)
  {
    if bs == [] then 0 else bs[0] + 256 * Value(bs[1..])
  }

  lemma {:induction false} ValueOfBytes(w: int, n: nat)
    requires 0 <= w < Pow256(n)
    ensures Value(LittleEndian(w, n)) == w
  {
    if n > 0 {
      ValueOfBytes(w / 256, n - 1);
      assert LittleEndian(w, n)[1..] == LittleEndian(w / 256, n - 1);
    }
  }

  lemma Pow256OfWord()
    ensures Pow256(WORD_BYTES) == WORD_SPAN
  {
    assert Pow256(4) == 0x1_0000_0000;
    assert Pow256(8) == WORD_SPAN;
  }

  function ToBytes(ws: seq<Word>): (bs: seq<Byte>)
    ensures |bs| == 8 * |ws|
  {
    if ws == [] then [] else LittleEndian(ws[0], WORD_BYTES) + ToBytes(ws[1..])
  }

  function ToWords(bs: seq<Byte>): (ws: seq<Word>)
    requires |bs| % 8 == 0
    ensures |ws| == |bs| / 8
  {
    if bs == [] then [] else
      Pow256OfWord();
      [Value(bs[..8])] + ToWords(bs[8..])
  }

  lemma {:induction false} BytesRoundTrip(ws: seq<Word>)
    ensures ToWords(ToBytes(ws)) == ws
  {
    if ws != [] {
      var bs := ToBytes(ws);
      assert bs[..8] == LittleEndian(ws[0], WORD_BYTES);
      assert bs[8..] == ToBytes(ws[1..]);
      Pow256OfWord();
      ValueOfBytes(ws[0], WORD_BYTES);
      BytesRoundTrip(ws[1..]);
    }
  }

  lemma {:induction false} BytesConcat(a: seq<Word>, b: seq<Word>)
    ensures ToBytes(a + b) == ToBytes(a) + ToBytes(b)
  {
    if a == [] {
      assert a + b == b;
    } else {
      assert (a + b)[1..] == a[1..] + b;
      BytesConcat(a[1..], b);
    }
  }

  lemma SliceOfTail(bs: seq<Byte>, a: nat, i: nat, n: nat)
    requires a + i + n <= |bs|
    ensures bs[a..][i..i + n] == bs[a + i..a + i + n]
  {
  }

  lemma {:induction false} BytesAt(ws: seq<Word>, k: nat)
    requires k < |ws|
    ensures ToBytes(ws)[8 * k..8 * k + 8] == LittleEndian(ws[k], WORD_BYTES)
  {
    var bs := ToBytes(ws);
    if k > 0 {
      BytesAt(ws[1..], k - 1);
      assert bs[8..] == ToBytes(ws[1..]);
      SliceOfTail(bs, 8, 8 * (k - 1), 8);
    }
  }

  lemma ValueAt(ws: seq<Word>, k: nat)
    requires k < |ws|
    ensures Value(ToBytes(ws)[8 * k..8 * k + 8]) == ws[k]
  {
    BytesAt(ws, k);
    Pow256OfWord();
    ValueOfBytes(ws[k], WORD_BYTES);
  }

  lemma {:induction false} WordAt(bs: seq<Byte>, k: nat)
    requires |bs| % 8 == 0 && k < |bs| / 8
    ensures ToWords(bs)[k] == Value(bs[8 * k..8 * k + 8])
  {
    if k > 0 {
      WordAt(bs[8..], k - 1);
      SliceOfTail(bs, 8, 8 * (k - 1), 8);
    }
  }

  // ----- user memory

  /** User memory: the mapped addresses and the byte at each. */
  type Memory = map<int, Byte>

  predicate Mapped(mem: Memory, at: int, n: nat) {
    forall a | at <= a < at + n :: a in mem
  }

  /** copyout of bs */
  function Store(mem: Memory, at: int, bs: seq<Byte>): (mem': Memory)
    requires Mapped(mem, at, |bs|)
    ensures mem'.Keys == mem.Keys
  {
    map a | a in mem :: if at <= a < at + |bs| then bs[a - at] else mem[a]
  }

  /** copyin of n bytes */
  function Load(mem: Memory, at: int, n: nat): (bs: seq<Byte>)
    requires Mapped(mem, at, n)
    ensures |bs| == n
  {
    seq(n, i requires 0 <= i < n => mem[at + i])
  }

  ghost predicate SameOn(mem: Memory, mem': Memory, lo: int, hi: int) {
    forall a | lo <= a < hi && a in mem :: a in mem' && mem'[a] == mem[a]
  }

  lemma LoadStored(mem: Memory, at: int, bs: seq<Byte>)
    requires Mapped(mem, at, |bs|)
    ensures Load(Store(mem, at, bs), at, |bs|) == bs
  {
  }

  lemma LoadSame(mem: Memory, mem': Memory, at: int, n: nat)
    requires Mapped(mem, at, n) && SameOn(mem, mem', at, at + n)
    ensures Mapped(mem', at, n) && Load(mem', at, n) == Load(mem, at, n)
  {
  }

  lemma LoadPart(mem: Memory, at: int, n: nat, i: nat, k: nat)
    requires Mapped(mem, at, n) && i + k <= n
    ensures Mapped(mem, at + i, k) && Load(mem, at, n)[i..i + k] == Load(mem, at + i, k)
  {
  }

  /** The context inside a stored frame reads back as the one that was saved. */
  lemma FrameReadsBack(mem: Memory, sfp: int, handler: Word, uc: UContext, si: seq<Word>)
    requires WellSized(uc) && |si| == 10
    requires Mapped(mem, sfp, FRAME_BYTES)
    requires Load(mem, sfp, FRAME_BYTES) == ToBytes(FrameWords(handler, uc, si))
    ensures Mapped(mem, sfp + UC_OFFSET, 8 * UC_WORDS)
    ensures ParseUc(ToWords(Load(mem, sfp + UC_OFFSET, 8 * UC_WORDS))) == uc
  {
    var head: seq<Word> := [handler, 0];
    BytesConcat(head + UcWords(uc), si);
    BytesConcat(head, UcWords(uc));
    var bs := Load(mem, sfp, FRAME_BYTES);
    assert bs[16..896] == ToBytes(UcWords(uc));
    assert Load(mem, sfp + UC_OFFSET, 8 * UC_WORDS) == bs[16..896];
    BytesRoundTrip(UcWords(uc));
    UcRoundTrip(uc);
  }
}
