/** Where signal frames lie: on which stack, below what, and exactly when a new
    frame lands on one that is still in use. */
module SignalGeometry {
  import opened Common
  import opened SignalFrame
  import opened SignalDelivery

  /** A delivered signal that has not returned yet: what was saved and where.
      alt says whether the frame was put on the alternate stack. */
  datatype Live = Live(uc: UContext, handler: Word, si: seq<Word>, ext: seq<Byte>,
                       sfp: Word, xaddr: Word, top: Word, alt: bool)

  function NewLive(cfg: Config, m: Cpu, s: Signal): Live
    requires |s.info| == 10 && s.signo < 0x8000_0000
  {
    var top := FrameTop(cfg, m.tf.rsp, s.signo);
    Live(SavedContext(cfg, m, XArea(cfg, top)), s.catcher, SigInfo(cfg, s), m.fp.ext,
         FrameAt(cfg, top), XArea(cfg, top), top,
         OnAlt(cfg, m.tf.rsp) || SwitchesToAlt(cfg, m.tf.rsp, s.signo))
  }

  ghost predicate ClearOfAlt(cfg: Config, lo: int, hi: int) {
    !cfg.alt || hi <= cfg.ssSp || cfg.ssSp + cfg.ssSize <= lo
  }

  ghost predicate Aligned(l: Live) {
    && l.sfp % 16 == 0 && l.sfp + FRAME_BYTES <= l.xaddr && l.xaddr + |l.ext| <= l.top
    && (l.ext != [] ==> l.xaddr % 64 == 0)
  }

  /** A frame, with room for its handler's red zone, keeps to the stack it was put on. */
  ghost predicate Fits(cfg: Config, l: Live) {
    if l.alt then cfg.alt && cfg.ssSp <= l.sfp && l.top <= cfg.ssSp + cfg.ssSize
    else ClearOfAlt(cfg, l.sfp - RED_ZONE, l.top)
  }

  /** Code interrupted with this stack pointer has popped none of the live
      frames and, with its red zone, is still on the stack of the innermost one. */
  ghost predicate Disciplined(cfg: Config, live: seq<Live>, rsp: Word) {
    && (OnAlt(cfg, rsp) || ClearOfAlt(cfg, rsp - RED_ZONE, rsp))
    && (live != [] ==>
          var inner := live[|live| - 1];
          rsp <= inner.sfp && (inner.alt <==> OnAlt(cfg, rsp)))
  }

  ghost predicate Apart(a: Live, b: Live) {
    a.top <= b.sfp || b.top <= a.sfp
  }

  ghost predicate ApartFromAll(live: seq<Live>, l: Live) {
    forall i | 0 <= i < |live| :: Apart(live[i], l)
  }

  /** The order live frames are in: inner frames lie below outer ones of the
      same stack, and once the alternate stack is in use it stays in use. */
  ghost predicate Nested(cfg: Config, live: seq<Live>) {
    && (forall i | 0 <= i < |live| :: Aligned(live[i]) && Fits(cfg, live[i]))
    && (forall i, j | 0 <= i < j < |live| ::
          && (live[i].alt ==> live[j].alt)
          && (live[i].alt == live[j].alt ==> live[j].top <= live[i].sfp))
  }

  lemma NestedApart(cfg: Config, live: seq<Live>, i: nat, j: nat)
    requires Nested(cfg, live) && i < j < |live|
    ensures Apart(live[i], live[j])
  {
    assert Aligned(live[i]) && Fits(cfg, live[i]) && Aligned(live[j]) && Fits(cfg, live[j]);
  }

  // ----- one frame

  /** 64-bit stack arithmetic cannot wrap into user memory: when the copyout of
      the frame succeeds the frame and the FPU area lie in order below the top. */
  lemma FrameBelowTop(cfg: Config, top: Word, mem: Memory)
    requires cfg.xlen < 0x1_0000_0000
    requires Mapped(mem, FrameAt(cfg, top), FRAME_BYTES)
    requires forall a | a in mem :: 0 <= a < USER_TOP
    ensures FrameAt(cfg, top) % 16 == 0
    ensures FrameAt(cfg, top) + FRAME_BYTES <= XArea(cfg, top) <= XArea(cfg, top) + cfg.xlen <= top
    ensures cfg.xlen != 0 ==> XArea(cfg, top) % 64 == 0
    ensures top <= FrameAt(cfg, top) + FRAME_BYTES + cfg.xlen + 80
  {
    assert FrameAt(cfg, top) in mem;
  }

  lemma RedZoneBelow(cfg: Config, rsp: Word, signo: int, mem: Memory)
    requires cfg.xlen < 0x1_0000_0000
    requires Mapped(mem, FrameAt(cfg, FrameTop(cfg, rsp, signo)), FRAME_BYTES)
    requires forall a | a in mem :: 0 <= a < USER_TOP
    requires !SwitchesToAlt(cfg, rsp, signo)
    ensures FrameTop(cfg, rsp, signo) == rsp - RED_ZONE
  {
    var top := FrameTop(cfg, rsp, signo);
    FrameBelowTop(cfg, top, mem);
    assert FrameAt(cfg, top) in mem;
  }

  lemma FramePlaced(cfg: Config, rsp: Word, signo: int, mem: Memory)
    requires ConfigOk(cfg) && Mapped(mem, FrameAt(cfg, FrameTop(cfg, rsp, signo)), FRAME_BYTES)
    requires forall a | a in mem :: 0 <= a < USER_TOP
    ensures FrameAt(cfg, FrameTop(cfg, rsp, signo)) < USER_TOP
    ensures FrameTop(cfg, rsp, signo) ==
            if SwitchesToAlt(cfg, rsp, signo) then cfg.ssSp + cfg.ssSize else rsp - RED_ZONE
  {
    assert FrameAt(cfg, FrameTop(cfg, rsp, signo)) in mem;
    if !SwitchesToAlt(cfg, rsp, signo) {
      RedZoneBelow(cfg, rsp, signo, mem);
    }
  }

  lemma DeliveredIsMapped(cfg: Config, m: Cpu, s: Signal)
    requires Delivers(cfg, m, s)
    ensures Mapped(m.mem, NewLive(cfg, m, s).sfp, FRAME_BYTES)
  {
  }

  /** A delivered frame is aligned and starts at the top of the alternate stack
      or below the interrupted code's red zone. */
  lemma NewFrameAligned(cfg: Config, m: Cpu, s: Signal)
    requires Delivers(cfg, m, s)
    ensures var l := NewLive(cfg, m, s);
            && Aligned(l) && l.sfp < USER_TOP
            && l.top == if SwitchesToAlt(cfg, m.tf.rsp, s.signo) then cfg.ssSp + cfg.ssSize else m.tf.rsp - RED_ZONE
  {
    DeliveredIsMapped(cfg, m, s);
    FrameBelowTop(cfg, NewLive(cfg, m, s).top, m.mem);
    FramePlaced(cfg, m.tf.rsp, s.signo, m.mem);
  }

  /** A frame is clear of the interrupted code's red zone exactly if it stays on
      that code's stack, or the alternate stack's top is not in the red zone
      and the frame does not reach down to the stack pointer. */
  lemma RedZoneExact(cfg: Config, m: Cpu, s: Signal)
    requires Delivers(cfg, m, s)
    ensures var l, rsp := NewLive(cfg, m, s), m.tf.rsp;
            (l.top <= rsp - RED_ZONE || rsp <= l.sfp) <==>
            || !SwitchesToAlt(cfg, rsp, s.signo)
            || cfg.ssSp + cfg.ssSize <= rsp - RED_ZONE
            || rsp <= FrameAt(cfg, cfg.ssSp + cfg.ssSize)
  {
    NewFrameAligned(cfg, m, s);
  }

  // ----- frames on top of nested ones

  /** A new frame lies below every live frame of its own stack. */
  lemma NewFrameBelow(cfg: Config, live: seq<Live>, l: Live, rsp: Word, i: nat)
    requires Nested(cfg, live) && Disciplined(cfg, live, rsp) && i < |live| && Aligned(l)
    requires (l.alt && !OnAlt(cfg, rsp)) || l.top <= rsp
    requires OnAlt(cfg, rsp) ==> l.alt
    ensures live[i].alt ==> l.alt
    ensures live[i].alt == l.alt ==> l.top <= live[i].sfp
  {
    var inner := live[|live| - 1];
    assert Aligned(inner) && Fits(cfg, inner);
    assert i < |live| - 1 ==> (live[i].alt ==> inner.alt);
  }

  /** Delivery on top of nested frames, by disciplined code, gives nested frames
      again exactly if the new frame fits its stack; the handler then starts
      disciplined. */
  lemma NewFrameNests(cfg: Config, live: seq<Live>, m: Cpu, s: Signal)
    requires Delivers(cfg, m, s) && Nested(cfg, live) && Disciplined(cfg, live, m.tf.rsp)
    ensures var l := NewLive(cfg, m, s);
            && (Nested(cfg, live + [l]) <==> Fits(cfg, l))
            && (Fits(cfg, l) ==> Disciplined(cfg, live + [l], l.sfp))
  {
    var l := NewLive(cfg, m, s);
    NewFrameAligned(cfg, m, s);
    var all := live + [l];
    assert all[|live|] == l;
    forall i | 0 <= i < |live|
      ensures live[i].alt ==> l.alt
      ensures live[i].alt == l.alt ==> l.top <= live[i].sfp
    {
      NewFrameBelow(cfg, live, l, m.tf.rsp, i);
    }
  }

  /** Without asking that it fit: a frame on the main stack hits no live frame,
      and one on the alternate stack hits none on that stack, and none at all
      unless it runs below the bottom. */
  lemma NewFrameApart(cfg: Config, live: seq<Live>, m: Cpu, s: Signal, i: nat)
    requires Delivers(cfg, m, s) && Nested(cfg, live) && Disciplined(cfg, live, m.tf.rsp) && i < |live|
    ensures var l := NewLive(cfg, m, s);
            !l.alt || live[i].alt || cfg.ssSp <= l.sfp ==> Apart(live[i], l)
  {
    var l := NewLive(cfg, m, s);
    NewFrameAligned(cfg, m, s);
    NewFrameBelow(cfg, live, l, m.tf.rsp, i);
    assert Aligned(live[i]) && Fits(cfg, live[i]);
  }

  // ----- the alternate stack, exactly

  lemma SameTopOverlaps(a: Live, b: Live)
    requires Aligned(a) && Aligned(b) && a.top == b.top
    ensures !Apart(a, b)
  {
  }

  ghost predicate ApartFromAlt(live: seq<Live>, l: Live) {
    forall i | 0 <= i < |live| && live[i].alt :: Apart(live[i], l)
  }

  /** While frames are live on the alternate stack, a signal that asks for it
      lands apart from all of them exactly when the interrupted stack pointer
      is on it; once outside, sendsig starts again at the top. */
  lemma AltStackExact(cfg: Config, live: seq<Live>, k: nat, m: Cpu, s: Signal)
    requires Delivers(cfg, m, s) && s.signo in cfg.onAltSigs && Nested(cfg, live)
    requires k < |live| && live[k].alt && live[k].top == cfg.ssSp + cfg.ssSize
    requires m.tf.rsp <= live[|live| - 1].sfp
    ensures ApartFromAlt(live, NewLive(cfg, m, s)) <==> OnAlt(cfg, m.tf.rsp)
  {
    var l, n := NewLive(cfg, m, s), |live| - 1;
    NewFrameAligned(cfg, m, s);
    assert Aligned(live[k]) && Fits(cfg, live[k]) && Aligned(live[n]);
    if OnAlt(cfg, m.tf.rsp) {
      assert k < n ==> live[n].alt;
      assert ApartFromAlt(live, l);
    } else {
      SameTopOverlaps(live[k], l);
    }
  }

  ghost predicate AllAlt(live: seq<Live>) {
    forall i | 0 <= i < |live| :: live[i].alt
  }

  ghost predicate OnMain(live: seq<Live>) {
    forall i | 0 <= i < |live| :: !live[i].alt
  }

  // ----- frames as sendsig makes them

  /** A frame is where sendsig puts one for code with the saved stack pointer:
      below its red zone, or at the top of the alternate stack. */
  ghost predicate Made(cfg: Config, l: Live) {
    && l.sfp == FrameAt(cfg, l.top) && l.xaddr == XArea(cfg, l.top) && |l.ext| == cfg.xlen
    && var rsp := l.uc.tf.rsp;
       || (l.top == rsp - RED_ZONE && (l.alt <==> OnAlt(cfg, rsp)))
       || (cfg.alt && !OnAlt(cfg, rsp) && l.alt && l.top == cfg.ssSp + cfg.ssSize)
  }

  lemma NewFrameMade(cfg: Config, m: Cpu, s: Signal)
    requires Delivers(cfg, m, s)
    ensures Made(cfg, NewLive(cfg, m, s)) && NewLive(cfg, m, s).uc.tf.rsp == m.tf.rsp
  {
    NewFrameAligned(cfg, m, s);
  }

  /** A stack of such frames, each on top of code that was disciplined. */
  ghost predicate Grown(cfg: Config, live: seq<Live>) {
    live == [] ||
    var outer, inner := live[..|live| - 1], live[|live| - 1];
    Grown(cfg, outer) && Made(cfg, inner) && Disciplined(cfg, outer, inner.uc.tf.rsp)
  }

  lemma {:induction false} GrownAt(cfg: Config, live: seq<Live>, i: nat)
    requires Grown(cfg, live) && i < |live|
    ensures Made(cfg, live[i]) && Disciplined(cfg, live[..i], live[i].uc.tf.rsp)
    decreases |live|
  {
    var n := |live| - 1;
    if i < n {
      GrownAt(cfg, live[..n], i);
      assert live[..n][..i] == live[..i];
    }
  }

  /** A frame, with its FPU area, lies in order below this top. */
  ghost predicate Room(cfg: Config, top: int) {
    && 0 <= top < WORD_SPAN
    && FrameAt(cfg, top) + FRAME_BYTES <= XArea(cfg, top) && XArea(cfg, top) + cfg.xlen <= top
  }

  lemma DownGrows(a: Word, b: Word, n: nat)
    requires a <= b && n in {16, 64}
    ensures 0 <= Down(a, n) <= Down(b, n) <= b && Down(b, n) % n == 0
  {
    if n == 16 {
      assert Down(a, 16) == 16 * (a / 16) && Down(b, 16) == 16 * (b / 16);
    } else {
      assert Down(a, 64) == 64 * (a / 64) && Down(b, 64) == 64 * (b / 64);
    }
  }

  /** Where there is room nothing has wrapped. */
  lemma RoomIsExact(cfg: Config, t: Word)
    requires cfg.xlen < 0x1_0000_0000 && Room(cfg, t)
    ensures cfg.xlen <= t && FRAME_BYTES <= XArea(cfg, t)
  {
  }

  lemma AreaGrows(cfg: Config, t: Word, u: Word)
    requires cfg.xlen <= t <= u
    ensures XArea(cfg, t) <= XArea(cfg, u) && XArea(cfg, u) + cfg.xlen <= u
  {
    DownGrows(t - cfg.xlen, u - cfg.xlen, 64);
  }

  /** A higher top has room if a lower one has, and its frame is no lower. */
  lemma RoomGrows(cfg: Config, t: Word, u: Word)
    requires cfg.xlen < 0x1_0000_0000 && Room(cfg, t) && t <= u
    ensures Room(cfg, u) && FrameAt(cfg, t) <= FrameAt(cfg, u)
  {
    RoomIsExact(cfg, t);
    AreaGrows(cfg, t, u);
    DownGrows(XArea(cfg, t) - FRAME_BYTES, XArea(cfg, u) - FRAME_BYTES, 16);
  }

  /** The highest top a main-stack frame below the alternate stack can have: the
      interrupted stack pointer is then the last address below that stack, or,
      if that stack is empty, the red zone's size above it. */
  function HighestTop(cfg: Config): int {
    if cfg.ssSize == 0 && cfg.ssSp + RED_ZONE < WORD_SPAN then cfg.ssSp
    else if cfg.ssSize == 0 then cfg.ssSp - RED_ZONE
    else cfg.ssSp - RED_ZONE - 1
  }

  lemma TopIsNoHigher(cfg: Config, l: Live)
    requires cfg.alt && Made(cfg, l) && !l.alt && l.top <= cfg.ssSp
    requires ClearOfAlt(cfg, l.uc.tf.rsp - RED_ZONE, l.uc.tf.rsp)
    ensures l.top <= HighestTop(cfg)
  {
  }

  // ----- what an alternate-stack frame does to the main stack

  /** Main-stack frames that can lie under these alternate-stack frames, the
      code now running with this stack pointer. */
  ghost predicate Beneath(cfg: Config, outer: seq<Live>, alts: seq<Live>, rsp: Word) {
    && OnMain(outer)
    && Nested(cfg, outer + alts) && Grown(cfg, outer + alts) && Disciplined(cfg, outer + alts, rsp)
  }

  /** The stack pointer at which the main stack was left. */
  function LeftAt(alts: seq<Live>, rsp: Word): Word {
    if alts == [] then rsp else alts[0].uc.tf.rsp
  }

  /** There can be a main-stack frame, above the place where that stack was left
      and below the alternate stack, that reaches over the bottom of l. */
  ghost predicate Threatens(cfg: Config, left: Word, l: Live) {
    var top := HighestTop(cfg);
    && !OnAlt(cfg, left) && ClearOfAlt(cfg, left - RED_ZONE, left)
    && l.sfp < top && Room(cfg, top) && left <= FrameAt(cfg, top)
  }

  lemma LeftDisciplined(cfg: Config, outer: seq<Live>, alts: seq<Live>, rsp: Word)
    requires Beneath(cfg, outer, alts, rsp)
    ensures Disciplined(cfg, outer, LeftAt(alts, rsp))
  {
    var all := outer + alts;
    if alts == [] {
      assert all == outer;
    } else {
      GrownAt(cfg, all, |outer|);
      assert all[..|outer|] == outer && all[|outer|] == alts[0];
    }
  }

  lemma BeneathAt(cfg: Config, outer: seq<Live>, alts: seq<Live>, rsp: Word, i: nat)
    requires Beneath(cfg, outer, alts, rsp) && i < |outer|
    ensures Aligned(outer[i]) && Fits(cfg, outer[i]) && Made(cfg, outer[i]) && !OnAlt(cfg, outer[i].uc.tf.rsp)
    ensures ClearOfAlt(cfg, outer[i].uc.tf.rsp - RED_ZONE, outer[i].uc.tf.rsp)
    ensures LeftAt(alts, rsp) <= outer[i].sfp && !OnAlt(cfg, LeftAt(alts, rsp))
  {
    var all, n := outer + alts, |outer| - 1;
    assert all[i] == outer[i] && all[n] == outer[n];
    assert Aligned(all[i]) && Fits(cfg, all[i]) && Aligned(all[n]);
    assert i < n ==> all[n].top <= all[i].sfp;
    GrownAt(cfg, all, i);
    LeftDisciplined(cfg, outer, alts, rsp);
  }

  lemma UnthreatenedApart(cfg: Config, outer: seq<Live>, alts: seq<Live>, rsp: Word, l: Live, i: nat)
    requires ConfigOk(cfg) && Beneath(cfg, outer, alts, rsp) && i < |outer| && cfg.alt
    requires l.top <= cfg.ssSp + cfg.ssSize && !Threatens(cfg, LeftAt(alts, rsp), l)
    ensures Apart(outer[i], l)
  {
    var x := outer[i];
    BeneathAt(cfg, outer, alts, rsp, i);
    LeftDisciplined(cfg, outer, alts, rsp);
    if x.top <= cfg.ssSp {
      TopIsNoHigher(cfg, x);
      RoomGrows(cfg, x.top, HighestTop(cfg));
    }
  }

  /** The frame that reaches highest below the alternate stack. */
  function Highest(cfg: Config, uc: UContext): Live
    requires Room(cfg, HighestTop(cfg))
  {
    var top := HighestTop(cfg);
    Live(uc.(tf := uc.tf.(rsp := top + RED_ZONE)), 0, [], seq(cfg.xlen, _ => 0),
         FrameAt(cfg, top), XArea(cfg, top), top, false)
  }

  lemma PlacesAligned(cfg: Config, top: Word)
    ensures FrameAt(cfg, top) % 16 == 0 && (cfg.xlen != 0 ==> XArea(cfg, top) % 64 == 0)
  {
    var area, frame := Sub(top, cfg.xlen), Sub(XArea(cfg, top), FRAME_BYTES);
    DownGrows(area, area, 64);
    DownGrows(frame, frame, 16);
  }

  lemma HighestIsClear(cfg: Config)
    requires ConfigOk(cfg) && cfg.alt && 0 <= HighestTop(cfg)
    ensures var top := HighestTop(cfg);
            && top <= cfg.ssSp && top + RED_ZONE < WORD_SPAN
            && !OnAlt(cfg, top + RED_ZONE) && ClearOfAlt(cfg, top, top + RED_ZONE)
  {
  }

  lemma HighestIsMade(cfg: Config, uc: UContext)
    requires ConfigOk(cfg) && cfg.alt && Room(cfg, HighestTop(cfg))
    ensures var l := Highest(cfg, uc);
            && Aligned(l) && Fits(cfg, l) && Made(cfg, l) && Disciplined(cfg, [], l.uc.tf.rsp)
  {
    PlacesAligned(cfg, HighestTop(cfg));
    HighestIsClear(cfg);
  }

  lemma {:induction false} GrownOnTop(cfg: Config, low: Live, alts: seq<Live>)
    requires Grown(cfg, [low]) && Grown(cfg, alts) && !low.alt && AllAlt(alts)
    requires alts != [] ==> Disciplined(cfg, [low], alts[0].uc.tf.rsp)
    ensures Grown(cfg, [low] + alts)
    decreases |alts|
  {
    var all := [low] + alts;
    if alts == [] {
      assert all == [low];
    } else {
      var n := |alts| - 1;
      GrownOnTop(cfg, low, alts[..n]);
      assert all[..n + 1] == [low] + alts[..n] && all[n + 1] == alts[n];
    }
  }

  lemma NestedOnTop(cfg: Config, low: Live, alts: seq<Live>)
    requires Aligned(low) && Fits(cfg, low) && !low.alt && AllAlt(alts) && Nested(cfg, alts)
    ensures Nested(cfg, [low] + alts)
  {
    var all := [low] + alts;
    assert forall i | 0 < i < |all| :: all[i] == alts[i - 1];
  }

  lemma OneBeneath(cfg: Config, low: Live, alts: seq<Live>, rsp: Word)
    requires Aligned(low) && Fits(cfg, low) && Made(cfg, low) && !low.alt && Disciplined(cfg, [], low.uc.tf.rsp)
    requires AllAlt(alts) && Nested(cfg, alts) && Grown(cfg, alts) && Disciplined(cfg, alts, rsp)
    requires Disciplined(cfg, [low], LeftAt(alts, rsp))
    ensures Beneath(cfg, [low], alts, rsp)
  {
    var all := [low] + alts;
    assert [low][..0] == [];
    GrownOnTop(cfg, low, alts);
    NestedOnTop(cfg, low, alts);
    assert all[|all| - 1] == if alts == [] then low else alts[|alts| - 1];
  }

  lemma ThreatenedHit(cfg: Config, alts: seq<Live>, rsp: Word, l: Live)
    requires ConfigOk(cfg) && cfg.alt && AllAlt(alts) && Nested(cfg, alts) && Grown(cfg, alts) && Disciplined(cfg, alts, rsp)
    requires Threatens(cfg, LeftAt(alts, rsp), l) && HighestTop(cfg) <= l.top
    ensures exists outer :: Beneath(cfg, outer, alts, rsp) && !ApartFromAll(outer, l)
  {
    var low := Highest(cfg, l.uc);
    HighestIsMade(cfg, l.uc);
    OneBeneath(cfg, low, alts, rsp);
    assert !Apart([low][0], l);
  }

  /** Whatever main-stack frames sendsig has made before, l is apart from them. */
  ghost predicate SparesMain(cfg: Config, alts: seq<Live>, rsp: Word, l: Live) {
    forall outer | Beneath(cfg, outer, alts, rsp) :: ApartFromAll(outer, l)
  }

  lemma SparesMainExact(cfg: Config, alts: seq<Live>, rsp: Word, l: Live)
    requires ConfigOk(cfg) && cfg.alt && AllAlt(alts) && Nested(cfg, alts) && Grown(cfg, alts) && Disciplined(cfg, alts, rsp)
    requires HighestTop(cfg) <= l.top <= cfg.ssSp + cfg.ssSize
    ensures SparesMain(cfg, alts, rsp, l) <==> !Threatens(cfg, LeftAt(alts, rsp), l)
  {
    if Threatens(cfg, LeftAt(alts, rsp), l) {
      ThreatenedHit(cfg, alts, rsp, l);
    } else {
      forall outer: seq<Live> | Beneath(cfg, outer, alts, rsp) ensures ApartFromAll(outer, l) {
        forall i | 0 <= i < |outer| ensures Apart(outer[i], l) {
          UnthreatenedApart(cfg, outer, alts, rsp, l, i);
        }
      }
    }
  }

  lemma FirstLeft(cfg: Config, alts: seq<Live>)
    requires alts != [] && Grown(cfg, alts)
    ensures var left := alts[0].uc.tf.rsp; OnAlt(cfg, left) || ClearOfAlt(cfg, left - RED_ZONE, left)
  {
    GrownAt(cfg, alts, 0);
  }

  lemma ThreatMeans(cfg: Config, left: Word, l: Live)
    requires cfg.ssSize > 0 && (OnAlt(cfg, left) || ClearOfAlt(cfg, left - RED_ZONE, left))
    ensures var top := cfg.ssSp - RED_ZONE - 1;
            Threatens(cfg, left, l) <==>
            !(top <= l.sfp || OnAlt(cfg, left) || !Room(cfg, top) || FrameAt(cfg, top) < left)
  {
  }

  lemma DeepFrameExact(cfg: Config, alts: seq<Live>, rsp: Word, l: Live)
    requires ConfigOk(cfg) && OnAlt(cfg, rsp) && l.top == rsp - RED_ZONE
    requires alts != [] && AllAlt(alts) && Nested(cfg, alts) && Grown(cfg, alts) && Disciplined(cfg, alts, rsp)
    ensures var left, top := alts[0].uc.tf.rsp, cfg.ssSp - RED_ZONE - 1;
            SparesMain(cfg, alts, rsp, l) <==>
            top <= l.sfp || OnAlt(cfg, left) || !Room(cfg, top) || FrameAt(cfg, top) < left
  {
    FirstLeft(cfg, alts);
    SparesMainExact(cfg, alts, rsp, l);
    ThreatMeans(cfg, alts[0].uc.tf.rsp, l);
  }

  /** With code running on the alternate stack, the next frame spares whatever
      main-stack frames sendsig can have made exactly if it ends at or above
      the highest top these can have, or none of them fits between the place
      where the main stack was left and that top. */
  lemma BelowAltExact(cfg: Config, alts: seq<Live>, m: Cpu, s: Signal)
    requires Delivers(cfg, m, s) && OnAlt(cfg, m.tf.rsp)
    requires alts != [] && AllAlt(alts) && Nested(cfg, alts) && Grown(cfg, alts) && Disciplined(cfg, alts, m.tf.rsp)
    ensures var left, top := alts[0].uc.tf.rsp, cfg.ssSp - RED_ZONE - 1;
            SparesMain(cfg, alts, m.tf.rsp, NewLive(cfg, m, s)) <==>
            || top <= FrameAt(cfg, FrameTop(cfg, m.tf.rsp, s.signo))
            || OnAlt(cfg, left) || !Room(cfg, top) || FrameAt(cfg, top) < left
  {
    NewFrameAligned(cfg, m, s);
    DeepFrameExact(cfg, alts, m.tf.rsp, NewLive(cfg, m, s));
  }

  /** A signal that switches to the alternate stack spares whatever live frames
      sendsig can have made exactly if its frame ends at or above the highest
      top these can have, or none of them fits between the interrupted stack
      pointer and that top. */
  lemma SwitchExact(cfg: Config, m: Cpu, s: Signal)
    requires Delivers(cfg, m, s) && SwitchesToAlt(cfg, m.tf.rsp, s.signo)
    requires ClearOfAlt(cfg, m.tf.rsp - RED_ZONE, m.tf.rsp)
    ensures var top := HighestTop(cfg);
            SparesMain(cfg, [], m.tf.rsp, NewLive(cfg, m, s)) <==>
            || top <= FrameAt(cfg, cfg.ssSp + cfg.ssSize)
            || !Room(cfg, top) || FrameAt(cfg, top) < m.tf.rsp
  {
    NewFrameAligned(cfg, m, s);
    SparesMainExact(cfg, [], m.tf.rsp, NewLive(cfg, m, s));
  }
}
