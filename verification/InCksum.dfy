/** The incremental checksum update that goes with decrementing the TTL of an
    IPv4 header. Words are in host order, as after ntohs. */
module InCksum {

  type Word16 = x: int | 0 <= x < 0x1_0000

  const TTL_WORD := 4
  const SUM_WORD := 5

  function Sum(ws: seq<Word16>): nat {
    if ws == [] then 0 else ws[0] + Sum(ws[1..])
  }

  /** End-around carry until the value fits in 16 bits. */
  function Fold(x: nat): (r: nat)
    ensures r < 0x1_0000
    decreases x
  {
    if x < 0x1_0000 then x else Fold(x / 0x1_0000 + x % 0x1_0000)
  }

  /** A receiver accepts the header: section 1 of RFC 1071, step 3. */
  predicate Verifies(hdr: seq<Word16>) {
    Fold(Sum(hdr)) == 0xffff
  }

  lemma {:induction false} AddMultiple(y: nat, k: nat)
    ensures (y + 0xffff * k) % 0xffff == y % 0xffff
  {
    if k > 0 {
      AddMultiple(y, k - 1);
      assert y + 0xffff * k == (y + 0xffff * (k - 1)) + 0xffff;
    }
  }

  /** Folding computes the sum modulo 65535 with 65535 for a nonzero multiple. */
  lemma {:induction false} FoldIsMod(x: nat)
    ensures Fold(x) == 0xffff <==> x > 0 && x % 0xffff == 0
    decreases x
  {
    if x >= 0x1_0000 {
      var y := x / 0x1_0000 + x % 0x1_0000;
      assert x == y + 0xffff * (x / 0x1_0000);
      assert x % 0xffff == y % 0xffff by { AddMultiple(y, x / 0x1_0000); }
      FoldIsMod(y);
    }
  }

  /** What in_cksum_update makes of the stored checksum. */
  function Updated(sum: Word16): Word16 {
    var tmp := sum + 256;
    (tmp + tmp / 0x1_0000) % 0x1_0000
  }

  /** A forwarding hop: the TTL, the high byte of its word, goes down by one. */
  function Hop(hdr: seq<Word16>): (r: seq<Word16>)
    requires |hdr| > SUM_WORD && hdr[TTL_WORD] >= 256
    ensures |r| == |hdr|
  {
    hdr[TTL_WORD := hdr[TTL_WORD] - 256][SUM_WORD := Updated(hdr[SUM_WORD])]
  }

  lemma {:induction false} SumUpdate(ws: seq<Word16>, k: nat, x: Word16)
    requires k < |ws|
    ensures Sum(ws[k := x]) == Sum(ws) - ws[k] + x
  {
    if k > 0 {
      assert ws[k := x][1..] == ws[1..][k - 1 := x];
      SumUpdate(ws[1..], k - 1, x);
    } else {
      assert ws[0 := x][1..] == ws[1..];
    }
  }

  lemma {:induction false} SumAtLeast(ws: seq<Word16>, k: nat)
    requires k < |ws|
    ensures Sum(ws) >= ws[k]
  {
    if k > 0 { SumAtLeast(ws[1..], k - 1); }
  }

  lemma {:induction false} SumBound(ws: seq<Word16>, j: nat, k: nat)
    requires j < k < |ws|
    ensures Sum(ws) - ws[j] >= ws[k]
  {
    if j == 0 {
      SumAtLeast(ws[1..], k - 1);
    } else {
      SumBound(ws[1..], j - 1, k - 1);
    }
  }

  lemma SumTwice(ws: seq<Word16>, x: Word16, y: Word16)
    requires |ws| > SUM_WORD
    ensures Sum(ws[TTL_WORD := x][SUM_WORD := y]) == Sum(ws) - ws[TTL_WORD] + x - ws[SUM_WORD] + y
  {
    SumUpdate(ws, TTL_WORD, x);
    SumUpdate(ws[TTL_WORD := x], SUM_WORD, y);
  }

  lemma UpdatedValue(sum: Word16)
    ensures Updated(sum) - sum == if sum < 0xff00 then 256 else 256 - 0xffff
  {
    if sum < 0xff00 {
      assert (sum + 256) / 0x1_0000 == 0;
    } else {
      assert (sum + 256) / 0x1_0000 == 1;
    }
  }

  /** The hop changes the sum of the header by 0 or by exactly one multiple of 65535. */
  lemma HopSum(hdr: seq<Word16>)
    requires |hdr| > SUM_WORD && hdr[TTL_WORD] >= 256
    ensures Sum(Hop(hdr)) == Sum(hdr) - if hdr[SUM_WORD] < 0xff00 then 0 else 0xffff
  {
    SumTwice(hdr, hdr[TTL_WORD] - 256, Updated(hdr[SUM_WORD]));
    UpdatedValue(hdr[SUM_WORD]);
  }

  lemma SumPositive(hdr: seq<Word16>)
    requires |hdr| > SUM_WORD && hdr[TTL_WORD] >= 256 && hdr[SUM_WORD] >= 0xff00
    ensures Sum(Hop(hdr)) > 0
  {
    HopSum(hdr);
    SumBound(hdr, TTL_WORD, SUM_WORD);
  }

  /** A header of any length verifies after the hop exactly when it did before. */
  lemma HopKeepsChecksum(hdr: seq<Word16>)
    requires |hdr| > SUM_WORD && hdr[TTL_WORD] >= 256
    ensures Verifies(Hop(hdr)) <==> Verifies(hdr)
  {
    HopSum(hdr);
    SumBound(hdr, TTL_WORD, SUM_WORD);
    FoldIsMod(Sum(hdr));
    FoldIsMod(Sum(Hop(hdr)));
    if hdr[SUM_WORD] >= 0xff00 {
      AddMultiple(Sum(Hop(hdr)), 1);
      SumPositive(hdr);
    }
  }

  function Hops(hdr: seq<Word16>, n: nat): (r: seq<Word16>)
    requires |hdr| > SUM_WORD && hdr[TTL_WORD] >= 256 * n
    ensures |r| == |hdr| && r[TTL_WORD] == hdr[TTL_WORD] - 256 * n
  {
    if n == 0 then hdr else Hop(Hops(hdr, n - 1))
  }

  /** So it does over any number of hops the TTL allows. */
  lemma {:induction false} HopsKeepChecksum(hdr: seq<Word16>, n: nat)
    requires |hdr| > SUM_WORD && hdr[TTL_WORD] >= 256 * n
    ensures Verifies(Hops(hdr, n)) <==> Verifies(hdr)
  {
    if n > 0 {
      HopsKeepChecksum(hdr, n - 1);
      HopKeepsChecksum(Hops(hdr, n - 1));
    }
  }

  /** in_cksum_update: overwrites ip_sum. */
  method InCksumUpdate(hdr: array<Word16>)
    requires hdr.Length > SUM_WORD
    modifies hdr
    ensures hdr[..] == old(hdr[..])[SUM_WORD := Updated(old(hdr[SUM_WORD]))]
  {
    var tmpsum: int := hdr[SUM_WORD] as int + 256;
    hdr[SUM_WORD] := (tmpsum + tmpsum / 0x1_0000) % 0x1_0000;
  }

  /** One hop of a forwarder keeps a verifying header verifying. */
  method Forward(hdr: array<Word16>)
    requires hdr.Length > SUM_WORD && hdr[TTL_WORD] >= 256
    modifies hdr
    ensures hdr[..] == Hop(old(hdr[..]))
    ensures hdr[4] == old(hdr[4]) - 256 && forall i | 0 <= i < hdr.Length && i != 4 && i != 5 :: hdr[i] == old(hdr[i])
    ensures Verifies(hdr[..]) <==> old(Verifies(hdr[..]))
  {
    HopKeepsChecksum(hdr[..]);
    hdr[TTL_WORD] := hdr[TTL_WORD] - 256;
    InCksumUpdate(hdr);
    assert hdr[..] == Hop(old(hdr[..]));
  }
}
