/** Numbers as text: the kernel's number printer and its string-to-number
    conversion. */
module NumberText {
  import opened Arith
  import opened Common

  const MAXNBUF := 65
  const QUAD_MAX := 0x7fff_ffff_ffff_ffff
  const QUAD_MIN := -0x8000_0000_0000_0000

  // ----- digits

  /** hex2ascii, and toupper when asked for. */
  function Digit(d: nat, upper: bool): char
    requires d < 36
  {
    if d < 10 then '0' + d as char
    else if upper then 'A' + (d - 10) as char
    else 'a' + (d - 10) as char
  }

  /** The digit a character stands for; 36 for none. */
  function DigitValue(c: char): (d: nat)
    ensures d <= 36
  {
    if '0' <= c <= '9' then (c - '0') as nat
    else if 'A' <= c <= 'Z' then (c - 'A') as nat + 10
    else if 'a' <= c <= 'z' then (c - 'a') as nat + 10
    else 36
  }

  /** The digits are 0 to 9 and then the letters, small or capital. */
  lemma DigitRoundTrip(d: nat, upper: bool)
    requires d < 36
    ensures Digit(d, upper) as int == if d < 10 then 48 + d else if upper then 65 + d - 10 else 97 + d - 10
    ensures DigitValue(Digit(d, upper)) == d
    ensures d > 0 ==> Digit(d, upper) != '0'
  {
  }

  /** The number in the given base, most significant digit first. */
  function Numeral(n: nat, base: nat, upper: bool): (s: string)
    requires 2 <= base <= 36
    ensures s != []
  {
    DivStep(n, base);
    if n < base then [Digit(n, upper)] else Numeral(n / base, base, upper) + [Digit(n % base, upper)]
  }

  /** What a string of digits denotes. */
  function Value(s: string, base: nat): nat {
    if s == [] then 0 else Value(s[..|s| - 1], base) * base + DigitValue(s[|s| - 1])
  }

  predicate AllDigits(s: string, base: nat) {
    forall i | 0 <= i < |s| :: DigitValue(s[i]) < base
  }

  /** Printing is undone by reading the digits back; there is no leading zero. */
  lemma {:induction false} NumeralValue(n: nat, base: nat, upper: bool)
    requires 2 <= base <= 36
    ensures Value(Numeral(n, base, upper), base) == n
    ensures AllDigits(Numeral(n, base, upper), base)
    ensures n > 0 ==> Numeral(n, base, upper)[0] != '0'
    decreases n
  {
    var s := Numeral(n, base, upper);
    if n < base {
      DigitRoundTrip(n, upper);
      assert s[..0] == [];
      assert Value(s[..0], base) * base == 0;
    } else {
      DivStep(n, base);
      NumeralValue(n / base, base, upper);
      DigitRoundTrip(n % base, upper);
      assert s[..|s| - 1] == Numeral(n / base, base, upper);
    }
  }

  lemma {:induction false} NumeralLength(n: nat, base: nat, upper: bool, k: nat)
    requires 2 <= base <= 36 && n < Pow2(k) && k > 0
    ensures |Numeral(n, base, upper)| <= k
  {
    if n >= base {
      DivStep(n, base);
      NumeralLength(n / base, base, upper, k - 1);
    }
  }

  lemma NumeralFits(n: nat, base: nat, upper: bool)
    requires 2 <= base <= 36 && n < WORD_SPAN
    ensures |Numeral(n, base, upper)| < MAXNBUF
  {
    PowersOfTwo();
    NumeralLength(n, base, upper, 64);
  }

  /** The string a reader finds going down from index p to the NUL at index 0. */
  function Backward(s: seq<char>, p: nat): (r: string)
    requires p < |s|
    ensures |r| == p
  {
    if p == 0 then [] else [s[p]] + Backward(s, p - 1)
  }

  lemma {:induction false} BackwardSame(s: seq<char>, s': seq<char>, p: nat)
    requires p < |s| && p < |s'| && s[..p + 1] == s'[..p + 1]
    ensures Backward(s, p) == Backward(s', p)
  {
    if p > 0 {
      assert s[..p] == s[..p + 1][..p] && s'[..p] == s'[..p + 1][..p];
      assert s[p] == s[..p + 1][p] && s'[p] == s'[..p + 1][p];
      BackwardSame(s, s', p - 1);
    }
  }

  /** What is still to be written while the digits of n remain. */
  ghost function Rest(n: nat, more: bool, base: nat, upper: bool): string
    requires 2 <= base <= 36
  {
    if more then Numeral(n, base, upper) else []
  }

  lemma RestStep(n: nat, base: nat, upper: bool)
    requires 2 <= base <= 36
    ensures n % base < 36
    ensures Numeral(n, base, upper) == Rest(n / base, n / base != 0, base, upper) + [Digit(n % base, upper)]
    ensures n / base < n || n == 0
  {
    DivStep(n, base);
  }

  /** One turn of the loop: write the low digit of n and drop it. */
  method PutDigit(nbuf: array<char>, p: nat, n: nat, base: nat, upper: bool) returns (p': nat, n': nat)
    requires 2 <= base <= 36 && p + 1 < nbuf.Length
    modifies nbuf
    ensures p' == p + 1 && (n' < n || n == 0 == n')
    ensures Numeral(n, base, upper) + old(Backward(nbuf[..], p)) ==
            Rest(n', n' != 0, base, upper) + Backward(nbuf[..], p')
    ensures nbuf[0] == old(nbuf[0]) && nbuf[p' + 1..] == old(nbuf[p' + 1..])
  {
    ghost var before := nbuf[..];
    RestStep(n, base, upper);
    var c := Digit(n % base, upper);
    p' := p + 1;
    nbuf[p'] := c;
    BackwardSame(before, nbuf[..], p);
    n' := n / base;
  }

  /** ksprintn: the digits go into the buffer in reverse, behind a NUL; p is the
      index of the last one. The buffer is never passed, in any base. */
  method Ksprintn(nbuf: array<char>, num: nat, base: nat, upper: bool) returns (p: nat)
    requires num < WORD_SPAN && 2 <= base <= 36 && nbuf.Length >= MAXNBUF
    modifies nbuf
    ensures 1 <= p < MAXNBUF && nbuf[0] == NUL
    ensures Backward(nbuf[..], p) == Numeral(num, base, upper)
    ensures p == |Numeral(num, base, upper)|
    ensures nbuf[p + 1..] == old(nbuf[p + 1..])
  {
    ghost var text := Numeral(num, base, upper);
    NumeralFits(num, base, upper);
    p := 0;
    nbuf[p] := NUL;
    var n: nat := num;
    var more := true;
    while more
      invariant (p == 0 ==> more) && p < nbuf.Length && nbuf[0] == NUL
      invariant text == Rest(n, more, base, upper) + Backward(nbuf[..], p)
      invariant nbuf[p + 1..] == old(nbuf[p + 1..])
      decreases more, n
    {
      p, n := PutDigit(nbuf, p, n, base, upper);
      more := n != 0;
    }
  }
}
