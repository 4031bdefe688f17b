/** The I/O permission bitmap of a thread: one bit per port, set when the port
    is denied, and a last byte with all bits set behind it. */
module Ioperm {
  import opened Arith
  import opened Bits
  import opened Common

  const PORTS := 65536
  const BITMAP_SIZE := 8193
  const UINT_SPAN := 0x1_0000_0000

  type UInt = x: int | 0 <= x < 0x1_0000_0000

  /** The bit of port p. */
  predicate Denied(map8: seq<nat>, p: nat)
    requires |map8| == BITMAP_SIZE && p < PORTS
  {
    Bit(map8[p / 8], p % 8)
  }

  /** It is bit p % 8, from the low end, of byte p / 8. */
  lemma DeniedIsBit(map8: seq<nat>, p: nat)
    requires |map8| == 8193 && p < 65536
    ensures Denied(map8, p) <==> map8[p / 8] / Pow2(p % 8) % 2 == 1
  {
    BitIsDigit(map8[p / 8], p % 8);
  }

  function Ones(k: nat): nat {
    if k == 0 then 0 else 1 + 2 * Ones(k - 1)
  }

  lemma {:induction false} BitOfOnes(k: nat, i: nat)
    requires i < k
    ensures Bit(Ones(k), i)
  {
    if i > 0 {
      assert Ones(k) / 2 == Ones(k - 1);
      BitOfOnes(k - 1, i - 1);
    }
  }

  lemma BitOfFull(i: nat)
    requires i < 8
    ensures Bit(0xff, i)
  {
    assert Ones(4) == 15;
    assert Ones(8) == 0xff;
    BitOfOnes(8, i);
  }

  /** The bitmap with the bit of port p set or cleared. */
  function WithPort(map8: seq<nat>, p: nat, enable: bool): (r: seq<nat>)
    requires |map8| == BITMAP_SIZE && p < PORTS
    ensures |r| == BITMAP_SIZE
  {
    map8[p / 8 := if enable then ClearBit(map8[p / 8], p % 8) else SetBit(map8[p / 8], p % 8)]
  }

  lemma PortChanges(map8: seq<nat>, p: nat, enable: bool, q: nat)
    requires |map8| == BITMAP_SIZE && p < PORTS && q < PORTS
    ensures Denied(WithPort(map8, p, enable), q) == if q == p then !enable else Denied(map8, q)
  {
    if q / 8 == p / 8 {
      BitOfClear(map8[p / 8], p % 8, q % 8);
      BitOfSet(map8[p / 8], p % 8, q % 8);
    }
  }

  ghost predicate Guarded(map8: seq<nat>) {
    |map8| == BITMAP_SIZE && map8[BITMAP_SIZE - 1] == 0xff
  }

  /** Ports in the range have the new permission, the others the old one. */
  ghost predicate RangeSet(before: seq<nat>, after: seq<nat>, start: nat, end: nat, enable: bool) {
    && Guarded(before) && Guarded(after)
    && forall q: nat | q < PORTS :: Denied(after, q) == if start <= q < end then !enable else Denied(before, q)
  }

  lemma RangeGrows(before: seq<nat>, now: seq<nat>, start: nat, i: nat, enable: bool)
    requires RangeSet(before, now, start, i, enable) && start <= i < PORTS
    ensures RangeSet(before, WithPort(now, i, enable), start, i + 1, enable)
  {
    forall q: nat | q < PORTS
      ensures Denied(WithPort(now, i, enable), q) == if start <= q < i + 1 then !enable else Denied(before, q)
    {
      PortChanges(now, i, enable, q);
    }
  }

  function Full(): (r: seq<nat>) {
    seq(BITMAP_SIZE, _ => 0xff)
  }

  /** A request of amd64_set_ioperm that passes its range check. */
  predicate InRange(start: nat, length: nat) {
    start + length <= PORTS
  }

  datatype IoCall = IoCall(start: UInt, length: UInt, enable: bool)

  /** Is port q allowed by the latest successful call that covers it? */
  predicate LastWriter(calls: seq<IoCall>, q: nat) {
    calls != [] &&
    var c := calls[|calls| - 1];
    if InRange(c.start, c.length) && c.start <= q < c.start + c.length then c.enable
    else LastWriter(calls[..|calls| - 1], q)
  }

  class Pcb {
    var iomap: array?<nat>

    constructor ()
      ensures iomap == null
    {
      iomap := null;
    }

    ghost predicate Valid()
      reads this, iomap
    {
      iomap != null ==> iomap.Length == BITMAP_SIZE && Guarded(iomap[..])
    }

    /** The bitmap, or the one a first call starts from. */
    ghost function Map(): (r: seq<nat>)
      reads this, iomap
      requires Valid()
      ensures Guarded(r)
    {
      if iomap == null then Full() else iomap[..]
    }

    /** amd64_set_ioperm; denied is what the privilege checks returned. */
    method SetIoperm(start: UInt, length: UInt, enable: bool, denied: int) returns (error: int)
      requires Valid()
      modifies this, iomap
      ensures Valid() && (iomap == old(iomap) || fresh(iomap))
      ensures error == if denied != 0 then denied else if start + length <= 65536 then 0 else 22
      ensures error != 0 ==> iomap == old(iomap) && Map() == old(Map())
      ensures error == 0 ==> iomap != null && RangeSet(old(Map()), Map(), start, start + length, enable)
    {
      if denied != 0 {
        return denied;
      }
      var sum := (start + length) % UINT_SPAN;
      if start > sum || sum > PORTS {
        return EINVAL;
      }
      if iomap == null {
        iomap := new nat[BITMAP_SIZE](_ => 0xff);
        assert iomap[..] == Full();
      }
      ghost var before := iomap[..];
      var i := start;
      while i < start + length
        invariant start <= i <= start + length <= PORTS
        invariant iomap != null && (iomap == old(iomap) || fresh(iomap)) && iomap.Length == BITMAP_SIZE
        invariant RangeSet(before, iomap[..], start, i, enable)
      {
        RangeGrows(before, iomap[..], start, i, enable);
        ghost var want := WithPort(iomap[..], i, enable);
        if enable {
          iomap[i / 8] := ClearBit(iomap[i / 8], i % 8);
        } else {
          iomap[i / 8] := SetBit(iomap[i / 8], i % 8);
        }
        assert iomap[..] == want;
        i := i + 1;
      }
      error := 0;
    }

    /** amd64_get_ioperm: the permission at start and how far it extends. With
        no bitmap yet the length is zero and enable keeps the caller's value. */
    method GetIoperm(start: UInt, enableIn: bool) returns (error: int, enable: bool, length: nat)
      requires Valid()
      ensures error == if start < PORTS then 0 else EINVAL
      ensures error == 0 && iomap == null ==> length == 0 && enable == enableIn
      ensures error == 0 && iomap != null ==>
                && enable == !Denied(Map(), start)
                && 1 <= length && start + length <= PORTS
                && (forall q: nat | start <= q < start + length :: Denied(Map(), q) == !enable)
                && (start + length < PORTS ==> Denied(Map(), start + length) == enable)
    {
      if start >= PORTS {
        return EINVAL, enableIn, 0;
      }
      if iomap == null {
        return 0, enableIn, 0;
      }
      var state := Bit(iomap[start / 8], start % 8);
      error, enable, length := 0, !state, 1;
      var i := start + 1;
      while i < PORTS
        invariant i == start + length <= PORTS
        invariant forall q: nat | start <= q < i :: Denied(iomap[..], q) == state
      {
        if state != Bit(iomap[i / 8], i % 8) {
          return;
        }
        length := length + 1;
        i := i + 1;
      }
    }

    /** Any sequence of privileged calls leaves the last writer's permission at
        every port, and denies the ports nobody has written. */
    method SetMany(calls: seq<IoCall>)
      requires Valid() && iomap == null
      modifies this
      ensures Valid()
      ensures iomap != null <==> exists c | c in calls :: InRange(c.start, c.length)
      ensures forall q: nat | q < PORTS :: Denied(Map(), q) == !LastWriter(calls, q)
    {
      forall q: nat | q < PORTS ensures Denied(Full(), q) { BitOfFull(q % 8); }
      var k := 0;
      while k < |calls|
        invariant k <= |calls| && Valid() && (iomap != null ==> fresh(iomap))
        invariant iomap != null <==> exists c | c in calls[..k] :: InRange(c.start, c.length)
        invariant forall q: nat | q < PORTS :: Denied(Map(), q) == !LastWriter(calls[..k], q)
      {
        var c := calls[k];
        assert calls[..k + 1] == calls[..k] + [c];
        assert calls[..k + 1][..k] == calls[..k];
        var error := SetIoperm(c.start, c.length, c.enable, 0);
        k := k + 1;
      }
      assert calls[..k] == calls;
    }
  }
}
