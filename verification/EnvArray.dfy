/** Arrays of integers in the kernel environment: reading them, and reading
    back what the number printer wrote. A string here ends where the C string
    has its NUL, and holds none. */
module EnvArray {
  import opened Arith
  import opened Common
  import opened NumberText

  function At(s: string, i: nat): char {
    if i < |s| then s[i] else NUL
  }

  // ----- strtoq with base 0

  predicate IsSpace(c: char) {
    c == ' ' || 9 <= c as int <= 13
  }

  function SkipSpace(s: string, i: nat): (j: nat)
    requires i <= |s|
    ensures i <= j <= |s|
    decreases |s| - i
  {
    if i < |s| && IsSpace(s[i]) then SkipSpace(s, i + 1) else i
  }

  function DigitsEnd(s: string, i: nat, base: nat): (j: nat)
    requires i <= |s|
    ensures i <= j <= |s|
    decreases |s| - i
  {
    if i < |s| && DigitValue(s[i]) < base then DigitsEnd(s, i + 1, base) else i
  }

  /** A number at the front of a string: its sign, its size, and where it ends. */
  datatype Literal = NoLiteral | Literal(neg: bool, size: nat, end: nat)

  function ReadLiteral(s: string): (l: Literal)
    ensures l.Literal? ==> 0 < l.end <= |s|
  {
    var i := SkipSpace(s, 0);
    var neg := At(s, i) == '-';
    var j := if neg || At(s, i) == '+' then i + 1 else i;
    var hex := At(s, j) == '0' && (At(s, j + 1) == 'x' || At(s, j + 1) == 'X');
    var base := if hex then 16 else if At(s, j) == '0' then 8 else 10;
    var start := if hex then j + 2 else j;
    if DigitsEnd(s, start, base) == start then NoLiteral
    else Literal(neg, Value(s[start..DigitsEnd(s, start, base)], base), DigitsEnd(s, start, base))
  }

  function Denotes(l: Literal): int
    requires l.Literal?
  {
    if l.neg then 0 - l.size else l.size
  }

  /** strtoq stops at the ends of its range without saying so. */
  function Clamp(v: int): (r: int)
    ensures QUAD_MIN <= r <= QUAD_MAX
  {
    if v < QUAD_MIN then QUAD_MIN else if v > QUAD_MAX then QUAD_MAX else v
  }

  // ----- one element

  /** The suffix character after a number: its shift and whether to step over it. */
  function Suffix(c: char): Option<(nat, nat)> {
    if c == 't' || c == 'T' then Some((40, 1))
    else if c == 'g' || c == 'G' then Some((30, 1))
    else if c == 'm' || c == 'M' then Some((20, 1))
    else if c == 'k' || c == 'K' then Some((10, 1))
    else if c == ' ' || c == '\t' || c == ',' || c == NUL then Some((0, 0))
    else None
  }

  function SkipSeparators(s: string, i: nat): (j: nat)
    requires i <= |s|
    ensures i <= j <= |s|
    decreases |s| - i
  {
    if i < |s| && (s[i] == '\t' || s[i] == ',' || s[i] == ' ') then SkipSeparators(s, i + 1) else i
  }

  /** The value of a 64-bit pattern as a signed number. */
  function Signed64(x: int): int {
    (x + 0x8000_0000_0000_0000) % WORD_SPAN - 0x8000_0000_0000_0000
  }

  /** The multiplier of a shift; only these shifts occur. */
  function Mult(shift: nat): (m: nat)
    ensures m > 0
  {
    if shift == 40 then 0x100_0000_0000
    else if shift == 30 then 0x4000_0000
    else if shift == 20 then 0x10_0000
    else if shift == 10 then 0x400
    else 1
  }

  /** The range checks made before an element is stored. */
  predicate InType(v: int, typeSize: nat, allowSigned: bool) {
    match typeSize
    case 1 => if allowSigned then -0x80 <= v <= 0x7f else 0 <= v <= 0xff
    case 2 => if allowSigned then -0x8000 <= v <= 0x7fff else 0 <= v <= 0xffff
    case 4 => if allowSigned then -0x8000_0000 <= v <= 0x7fff_ffff else v <= 0xffff_ffff
    case 8 => true
    case _ => false
  }

  datatype Item = Bad | Item(value: int, next: nat)

  /** Scale the value, refuse it if bits are lost or it is out of range. */
  function Store(value: int, shift: nat, next: nat, typeSize: nat, allowSigned: bool): Item {
    var shifted := Signed64(value * Mult(shift));
    if shifted / Mult(shift) != value || !InType(shifted, typeSize, allowSigned) then Bad
    else Item(shifted, next)
  }

  /** The element a number at the front of a string, with what follows it, makes. */
  function ItemOf(s: string, l: Literal, typeSize: nat, allowSigned: bool): (it: Item)
    requires l.Literal? ==> 0 < l.end <= |s|
    ensures it.Item? ==> 0 < it.next <= |s|
  {
    if l.NoLiteral? then Bad
    else
      var value := Clamp(Denotes(l));
      var suffix := Suffix(At(s, l.end));
      if value < 0 && !allowSigned then Bad
      else if suffix.None? then Bad
      else
        var (shift, step) := suffix.value;
        Store(value, shift, SkipSeparators(s, l.end + step), typeSize, allowSigned)
  }

  /** One turn of getenv_array's loop, up to the capacity check. */
  function ReadItem(s: string, typeSize: nat, allowSigned: bool): (it: Item)
    ensures it.Item? ==> 0 < it.next <= |s|
  {
    ItemOf(s, ReadLiteral(s), typeSize, allowSigned)
  }

  /** The overflow check catches every shift that loses bits. */
  lemma ShiftIsExact(value: int, shift: nat)
    requires QUAD_MIN <= value <= QUAD_MAX && shift in {0, 10, 20, 30, 40}
    ensures Signed64(value * Mult(shift)) / Mult(shift) == value <==> QUAD_MIN <= value * Mult(shift) <= QUAD_MAX
    ensures QUAD_MIN <= value * Mult(shift) <= QUAD_MAX ==> Signed64(value * Mult(shift)) == value * Mult(shift)
  {
  }

  lemma SameTimes(a: int, b: int, m: nat)
    requires m > 0
    ensures a * m == b * m <==> a == b
  {
    assert a * m - b * m == (a - b) * m;
  }

  /** What the suffix character multiplies by; 0 for a character that is refused. */
  lemma SuffixExact(c: char)
    ensures var m := if c in {'t', 'T'} then 1_099_511_627_776 else if c in {'g', 'G'} then 1_073_741_824
                     else if c in {'m', 'M'} then 1_048_576 else if c in {'k', 'K'} then 1024
                     else if c in {' ', '\t', ',', '\0'} then 1 else 0;
            if m == 0 then Suffix(c).None? else Suffix(c).Some? && Mult(Suffix(c).value.0) == m
  {
  }

  /** Which values an element of a size and signedness takes. A 4-byte unsigned
      element has no lower bound of its own, an 8-byte one no bounds at all. */
  lemma TypeExact(v: int, typeSize: nat)
    ensures InType(v, 1, true) <==> -128 <= v <= 127
    ensures InType(v, 1, false) <==> 0 <= v <= 255
    ensures InType(v, 2, true) <==> -32768 <= v <= 32767
    ensures InType(v, 2, false) <==> 0 <= v <= 65535
    ensures InType(v, 4, true) <==> -2_147_483_648 <= v <= 2_147_483_647
    ensures InType(v, 4, false) <==> v <= 4_294_967_295
    ensures InType(v, 8, true) && InType(v, 8, false)
    ensures typeSize !in {1, 2, 4, 8} ==> !InType(v, typeSize, true) && !InType(v, typeSize, false)
  {
  }

  /** A stored element is the number read times its suffix multiplier, without
      wraparound, and in the range of its type. It is the number written,
      times the multiplier, exactly when that number itself fits in 64 bits:
      beyond that strtoq has already replaced it. */
  lemma ItemIsExact(s: string, typeSize: nat, allowSigned: bool)
    requires ReadItem(s, typeSize, allowSigned).Item?
    ensures var l, v := ReadLiteral(s), ReadItem(s, typeSize, allowSigned).value;
            && l.Literal? && Suffix(At(s, l.end)).Some?
            && var c := At(s, l.end);
               var m := if c in {'t', 'T'} then 1_099_511_627_776 else if c in {'g', 'G'} then 1_073_741_824
                        else if c in {'m', 'M'} then 1_048_576 else if c in {'k', 'K'} then 1024 else 1;
               && v == Clamp(Denotes(l)) * m && QUAD_MIN <= v <= QUAD_MAX
               && (allowSigned || v >= 0) && InType(v, typeSize, allowSigned)
               && (v == Denotes(l) * m <==> QUAD_MIN <= Denotes(l) <= QUAD_MAX)
  {
    var l := ReadLiteral(s);
    var value, shift := Clamp(Denotes(l)), Suffix(At(s, l.end)).value.0;
    ShiftIsExact(value, shift);
    SuffixExact(At(s, l.end));
    var m := Mult(shift);
    SameTimes(value, Denotes(l), m);
  }

  /** A string begins with an element exactly if it begins with a number and a
      suffix or separator, the number is not negative where that is not
      allowed, and scaled by the suffix it fits 64 bits and the element's type. */
  lemma AcceptedExactly(s: string, typeSize: nat, allowSigned: bool)
    ensures ReadItem(s, typeSize, allowSigned).Item? <==>
            && var l := ReadLiteral(s);
               && l.Literal? && Suffix(At(s, l.end)).Some?
               && var v, m := Clamp(Denotes(l)), Mult(Suffix(At(s, l.end)).value.0);
                  && (v >= 0 || allowSigned)
                  && -0x8000_0000_0000_0000 <= v * m <= 0x7fff_ffff_ffff_ffff && InType(v * m, typeSize, allowSigned)
  {
    var l := ReadLiteral(s);
    if l.Literal? && Suffix(At(s, l.end)).Some? {
      ShiftIsExact(Clamp(Denotes(l)), Suffix(At(s, l.end)).value.0);
    }
  }

  lemma {:induction false} SeparatorsSkipped(s: string, i: nat)
    requires i <= |s|
    ensures forall j | i <= j < SkipSeparators(s, i) :: s[j] in {'\t', ',', ' '}
    ensures SkipSeparators(s, i) < |s| ==> s[SkipSeparators(s, i)] !in {'\t', ',', ' '}
    decreases |s| - i
  {
    if i < |s| && s[i] in {'\t', ',', ' '} { SeparatorsSkipped(s, i + 1); }
  }

  /** The next element is looked for behind the suffix and all separators. */
  lemma NextItem(s: string, typeSize: nat, allowSigned: bool)
    requires ReadItem(s, typeSize, allowSigned).Item?
    ensures var next, end := ReadItem(s, typeSize, allowSigned).next, ReadLiteral(s).end;
            var from := if At(s, end) in {'\t', ',', ' ', '\0'} then end else end + 1;
            && from <= next <= |s| && (forall j | from <= j < next :: s[j] in {'\t', ',', ' '})
            && (next < |s| ==> s[next] !in {'\t', ',', ' '})
  {
    var end := ReadLiteral(s).end;
    SeparatorsSkipped(s, end + Suffix(At(s, end)).value.1);
  }

  /** A literal out of range slips through only unscaled and into 64-bit elements. */
  lemma SaturatedItem(s: string, typeSize: nat, allowSigned: bool)
    requires ReadItem(s, typeSize, allowSigned).Item?
    requires !(QUAD_MIN <= Denotes(ReadLiteral(s)) <= QUAD_MAX)
    ensures typeSize == 8 && Suffix(At(s, ReadLiteral(s).end)).value.0 == 0
    ensures ReadItem(s, typeSize, allowSigned).value in {QUAD_MIN, QUAD_MAX}
  {
    ItemIsExact(s, typeSize, allowSigned);
  }

  // ----- the whole array

  /** Read items until the string is used up; None when one is refused or finds
      no room. An item that does not advance within the string is refused. */
  function ReadAll(s: string, capacity: nat, read: string -> Item): (r: Option<seq<int>>)
    ensures r.Some? ==> |r.value| <= capacity
    ensures r.Some? ==> (r.value == [] <==> s == [])
    decreases |s|
  {
    if s == [] then Some([])
    else
      var it := read(s);
      if it.Bad? || !(0 < it.next <= |s|) || capacity == 0 then None
      else
        var rest := ReadAll(s[it.next..], capacity - 1, read);
        if rest.None? then None else Some([it.value] + rest.value)
  }

  function Reader(typeSize: nat, allowSigned: bool): string -> Item {
    (s: string) => ReadItem(s, typeSize, allowSigned)
  }

  /** The elements of a string, or None when it is refused. */
  function Elements(s: string, capacity: nat, typeSize: nat, allowSigned: bool): Option<seq<int>> {
    ReadAll(s, capacity, Reader(typeSize, allowSigned))
  }

  ghost function Joined(done: seq<int>, rest: Option<seq<int>>): Option<seq<int>> {
    if rest.None? then None else Some(done + rest.value)
  }

  lemma ReadStep(s: string, ptr: nat, done: seq<int>, capacity: nat, read: string -> Item)
    requires ptr < |s| && capacity > 0
    requires var it := read(s[ptr..]); it.Item? && 0 < it.next <= |s| - ptr
    ensures var it := read(s[ptr..]);
            Joined(done, ReadAll(s[ptr..], capacity, read)) ==
            Joined(done + [it.value], ReadAll(s[ptr + it.next..], capacity - 1, read))
  {
    var it := read(s[ptr..]);
    assert s[ptr..][it.next..] == s[ptr + it.next..];
    var rest := ReadAll(s[ptr + it.next..], capacity - 1, read);
    if rest.Some? {
      assert done + ([it.value] + rest.value) == done + [it.value] + rest.value;
    }
  }

  lemma JoinedEmpty(rest: Option<seq<int>>)
    ensures Joined([], rest) == rest
  {
    if rest.Some? { assert [] + rest.value == rest.value; }
  }

  /** An item that is accepted takes up some of the string. */
  ghost predicate AdvancesOn(read: string -> Item, s: string) {
    read(s).Item? ==> 0 < read(s).next <= |s|
  }

  ghost predicate Advances(read: string -> Item) {
    forall s: string :: AdvancesOn(read, s)
  }

  lemma ReaderAdvances(typeSize: nat, allowSigned: bool)
    ensures Advances(Reader(typeSize, allowSigned))
  {
  }

  /** The parsing loop: always advances, and writes no element beyond the capacity. */
  method ParseAll(s: string, read: string -> Item, pdata: array<int>, capacity: nat) returns (ok: bool, n: nat)
    requires capacity <= pdata.Length && Advances(read)
    modifies pdata
    ensures ok <==> ReadAll(s, capacity, read).Some?
    ensures ok ==> n <= capacity && ReadAll(s, capacity, read) == Some(pdata[..n])
    ensures pdata[capacity..] == old(pdata[capacity..])
  {
    ghost var whole := ReadAll(s, capacity, read);
    n := 0;
    var ptr := 0;
    assert s[0..] == s && pdata[..0] == [];
    JoinedEmpty(whole);
    while ptr < |s|
      invariant ptr <= |s| && n <= capacity
      invariant pdata[capacity..] == old(pdata[capacity..])
      invariant whole == Joined(pdata[..n], ReadAll(s[ptr..], capacity - n, read))
    {
      assert AdvancesOn(read, s[ptr..]);
      var it := read(s[ptr..]);
      if it.Bad? || n >= capacity {
        return false, n;
      }
      ghost var before := pdata[..n];
      ReadStep(s, ptr, before, capacity - n, read);
      pdata[n] := it.value;
      assert pdata[..n + 1] == before + [it.value];
      ptr := ptr + it.next;
      n := n + 1;
    }
    assert s[ptr..] == [] && pdata[..n] + [] == pdata[..n];
    ok := true;
  }

  /** getenv_array on the value of a variable, None if there is none: fills
      pdata and gives the size in bytes. */
  method GetenvArray(buf: Option<string>, pdata: array<int>, size: nat, typeSize: nat, allowSigned: bool)
    returns (rc: bool, psize: nat)
    requires typeSize > 0 && size / typeSize <= pdata.Length
    modifies pdata
    ensures rc <==> buf.Some? && buf.value != [] && Elements(buf.value, size / typeSize, typeSize, allowSigned).Some?
    ensures rc ==> var vs := Elements(buf.value, size / typeSize, typeSize, allowSigned).value;
                   |vs| <= pdata.Length && pdata[..|vs|] == vs && psize == |vs| * typeSize
    ensures pdata[size / typeSize..] == old(pdata[size / typeSize..])
  {
    rc, psize := false, 0;
    if buf.None? {
      return;
    }
    ReaderAdvances(typeSize, allowSigned);
    var ok, n := ParseAll(buf.value, Reader(typeSize, allowSigned), pdata, size / typeSize);
    if !ok {
      return;
    }
    psize := n * typeSize;
    if n != 0 {
      rc := true;
    }
  }

  // ----- printing and reading back

  /** The values in base 10, joined with commas. */
  function ListText(vs: seq<nat>): string
    requires vs != []
  {
    if |vs| == 1 then Numeral(vs[0], 10, false) else Numeral(vs[0], 10, false) + "," + ListText(vs[1..])
  }

  lemma {:induction false} DigitsEndStops(s: string, i: nat, k: nat, base: nat)
    requires i <= k <= |s| && (forall j | i <= j < k :: DigitValue(s[j]) < base)
    requires k < |s| ==> DigitValue(s[k]) >= base
    ensures DigitsEnd(s, i, base) == k
    decreases k - i
  {
    if i < k { DigitsEndStops(s, i + 1, k, base); }
  }

  lemma {:induction false} SpaceSkipped(s: string, i: nat, k: nat)
    requires i <= k <= |s| && (forall j | i <= j < k :: s[j] == ' ' || 9 <= s[j] as int <= 13)
    requires k < |s| ==> !IsSpace(s[k])
    ensures SkipSpace(s, i) == k
    decreases k - i
  {
    if i < k { SpaceSkipped(s, i + 1, k); }
  }

  /** The characters from start to end are the digits of a number that begins at
      j: in base 16 behind 0x or 0X, in base 8 if they begin with 0, otherwise
      in base 10. */
  ghost predicate DigitsAre(s: string, j: nat, start: nat, end: nat, base: nat) {
    && j <= start < end <= |s| && (forall k | start <= k < end :: DigitValue(s[k]) < base)
    && (end < |s| ==> DigitValue(s[end]) >= base)
    && (|| (base == 16 && start == j + 2 && s[j] == '0' && (s[j + 1] == 'x' || s[j + 1] == 'X'))
        || (base == 8 && start == j && s[j] == '0' && (j + 1 < |s| ==> s[j + 1] != 'x' && s[j + 1] != 'X'))
        || (base == 10 && start == j && s[j] != '0'))
  }

  /** White space up to i, a sign or none up to j, and a number in decimal, octal
      or hexadecimal are read as what they denote, up to the first character
      that is not a digit. */
  lemma LiteralRead(s: string, i: nat, j: nat, start: nat, end: nat, base: nat)
    requires DigitsAre(s, j, start, end, base)
    requires i == j || (i + 1 == j && (s[i] == '-' || s[i] == '+'))
    requires forall k | 0 <= k < i :: s[k] == ' ' || 9 <= s[k] as int <= 13
    ensures ReadLiteral(s) == Literal(i < j && s[i] == '-', Value(s[start..end], base), end)
  {
    SpaceSkipped(s, 0, i);
    DigitsEndStops(s, start, end, base);
  }

  lemma NoZeroUnlessZero(n: nat)
    ensures n > 0 ==> Numeral(n, 10, false)[0] != '0'
    ensures n == 0 ==> Numeral(n, 10, false) == "0"
    ensures forall i | 0 <= i < |Numeral(n, 10, false)| :: '0' <= Numeral(n, 10, false)[i] <= '9'
  {
    NumeralValue(n, 10, false);
    var s := Numeral(n, 10, false);
    forall i | 0 <= i < |s| ensures '0' <= s[i] <= '9' {
      assert DigitValue(s[i]) < 10;
    }
  }

  /** A printed number, at the end or before a comma, is read as itself. */
  lemma LiteralOfNumeral(n: nat, rest: string)
    requires rest == [] || rest[0] == ','
    ensures ReadLiteral(Numeral(n, 10, false) + rest) == Literal(false, n, |Numeral(n, 10, false)|)
  {
    var num := Numeral(n, 10, false);
    var s := num + rest;
    NoZeroUnlessZero(n);
    NumeralValue(n, 10, false);
    assert s[0] == num[0];
    assert s[0..|num|] == num;
    var base := if n == 0 then 8 else 10;
    assert Value(num, base) == n by {
      if n == 0 { assert num[..0] == []; }
    }
    forall j | 0 <= j < |num| ensures DigitValue(s[j]) < base {
      assert s[j] == num[j];
    }
    assert |num| < |s| ==> s[|num|] == ',';
    LiteralRead(s, 0, 0, 0, |num|, base);
  }

  lemma NoShift(n: int)
    requires QUAD_MIN <= n <= QUAD_MAX
    ensures Signed64(n * Mult(0)) == n && Signed64(n * Mult(0)) / Mult(0) == n
  {
    assert n * Mult(0) == n;
    assert 0 <= n + 0x8000_0000_0000_0000 < WORD_SPAN;
  }

  lemma StoreUnscaled(n: int, next: nat, typeSize: nat, allowSigned: bool)
    requires QUAD_MIN <= n <= QUAD_MAX && InType(n, typeSize, allowSigned)
    ensures Store(n, 0, next, typeSize, allowSigned) == Item(n, next)
  {
    NoShift(n);
  }

  /** An unsigned number with no suffix is stored as strtoq read it. */
  lemma ItemOfLiteral(s: string, n: nat, end: nat, typeSize: nat, allowSigned: bool)
    requires 0 < end <= |s| && (At(s, end) == NUL || At(s, end) == ',') && InType(Clamp(n), typeSize, allowSigned)
    ensures ItemOf(s, Literal(false, n, end), typeSize, allowSigned) == Item(Clamp(n), SkipSeparators(s, end))
  {
    StoreUnscaled(Clamp(n), SkipSeparators(s, end), typeSize, allowSigned);
  }

  /** What may follow a number in a list: nothing, or a comma and a digit. */
  predicate Follows(rest: string) {
    rest == [] || (|rest| > 1 && rest[0] == ',' && '0' <= rest[1] <= '9')
  }

  function Ends(n: nat, rest: string): nat {
    |Numeral(n, 10, false)| + if rest == [] then 0 else 1
  }

  lemma ItemOfNumeral(n: nat, rest: string, typeSize: nat, allowSigned: bool)
    requires Follows(rest) && n <= QUAD_MAX && InType(n, typeSize, allowSigned)
    ensures ReadItem(Numeral(n, 10, false) + rest, typeSize, allowSigned) == Item(n, Ends(n, rest))
  {
    var num := Numeral(n, 10, false);
    var s := num + rest;
    LiteralOfNumeral(n, rest);
    assert At(s, |num|) == if rest == [] then NUL else ',';
    ItemOfLiteral(s, n, |num|, typeSize, allowSigned);
    if rest != [] {
      assert s[|num|] == ',' && s[|num| + 1] == rest[1];
    }
  }

  lemma ListTextStarts(vs: seq<nat>)
    requires vs != []
    ensures ListText(vs) != [] && '0' <= ListText(vs)[0] <= '9'
  {
    NoZeroUnlessZero(vs[0]);
  }

  lemma ReadAllCons(s: string, capacity: nat, read: string -> Item, v: int, next: nat, rest: seq<int>)
    requires 0 < next <= |s| && capacity > 0 && read(s) == Item(v, next)
    requires ReadAll(s[next..], capacity - 1, read) == Some(rest)
    ensures ReadAll(s, capacity, read) == Some([v] + rest)
  {
  }

  ghost predicate ReadsNumerals(read: string -> Item, vs: seq<nat>) {
    forall i, rest | 0 <= i < |vs| && Follows(rest) ::
      read(Numeral(vs[i], 10, false) + rest) == Item(vs[i], Ends(vs[i], rest))
  }

  function ListTail(vs: seq<nat>): string
    requires vs != []
  {
    if |vs| == 1 then [] else ListText(vs[1..])
  }

  lemma SplitList(vs: seq<nat>) returns (rest: string)
    requires vs != []
    ensures Follows(rest) && ListText(vs) == Numeral(vs[0], 10, false) + rest
    ensures 0 < Ends(vs[0], rest) <= |ListText(vs)| && ListText(vs)[Ends(vs[0], rest)..] == ListTail(vs)
  {
    if |vs| == 1 {
      rest := [];
    } else {
      ListTextStarts(vs[1..]);
      rest := "," + ListTail(vs);
      assert rest[1] == ListTail(vs)[0];
    }
  }

  lemma {:induction false} ListIsRead(vs: seq<nat>, capacity: nat, read: string -> Item)
    requires vs != [] && |vs| <= capacity && ReadsNumerals(read, vs)
    ensures ReadAll(ListText(vs), capacity, read) == Some(vs)
  {
    var rest := SplitList(vs);
    if |vs| > 1 {
      forall i, r | 0 <= i < |vs[1..]| && Follows(r)
        ensures read(Numeral(vs[1..][i], 10, false) + r) == Item(vs[1..][i], Ends(vs[1..][i], r))
      {
        assert vs[1..][i] == vs[i + 1];
      }
      ListIsRead(vs[1..], capacity - 1, read);
    } else {
      assert vs[1..] == [];
    }
    assert ReadAll(ListTail(vs), capacity - 1, read) == Some(vs[1..]);
    ReadAllCons(ListText(vs), capacity, read, vs[0], Ends(vs[0], rest), vs[1..]);
    assert [vs[0]] + vs[1..] == vs;
  }

  /** Printer and parser undo each other on every nonempty list of values that
      are in range and fit the array. */
  lemma ListRoundTrip(vs: seq<nat>, capacity: nat, typeSize: nat, allowSigned: bool)
    requires vs != [] && |vs| <= capacity
    requires forall i | 0 <= i < |vs| :: vs[i] <= QUAD_MAX && InType(vs[i], typeSize, allowSigned)
    ensures Elements(ListText(vs), capacity, typeSize, allowSigned) == Some(vs)
  {
    forall i, rest | 0 <= i < |vs| && Follows(rest)
      ensures Reader(typeSize, allowSigned)(Numeral(vs[i], 10, false) + rest) == Item(vs[i], Ends(vs[i], rest))
    {
      ItemOfNumeral(vs[i], rest, typeSize, allowSigned);
    }
    ListIsRead(vs, capacity, Reader(typeSize, allowSigned));
  }

  lemma ItemOfHuge(n: nat, allowSigned: bool)
    requires n > QUAD_MAX
    ensures ReadItem(Numeral(n, 10, false), 8, allowSigned) == Item(QUAD_MAX, |Numeral(n, 10, false)|)
  {
    var num := Numeral(n, 10, false);
    assert num + [] == num;
    LiteralOfNumeral(n, []);
    ItemOfLiteral(num, n, |num|, 8, allowSigned);
  }

  lemma ReadOne(s: string, read: string -> Item, v: int)
    requires s != [] && read(s) == Item(v, |s|)
    ensures ReadAll(s, 1, read) == Some([v])
  {
    assert s[|s|..] == [];
    ReadAllCons(s, 1, read, v, |s|, []);
    assert [v] + [] == [v];
  }

  lemma HugeIsClamped(n: nat, allowSigned: bool)
    requires n > QUAD_MAX
    ensures Elements(Numeral(n, 10, false), 1, 8, allowSigned) == Some([QUAD_MAX])
  {
    ItemOfHuge(n, allowSigned);
    ReadOne(Numeral(n, 10, false), Reader(8, allowSigned), QUAD_MAX);
  }

  lemma SmallComesBack(n: nat, allowSigned: bool)
    requires n <= QUAD_MAX
    ensures Elements(Numeral(n, 10, false), 1, 8, allowSigned) == Some([n])
  {
    ListRoundTrip([n], 1, 8, allowSigned);
  }

  /** Into 64-bit elements a printed value comes back exactly when it fits a
      signed 64-bit number; a larger one, which the printer can write, comes
      back as the largest such number, without an error. */
  lemma RoundTripExact64(n: nat, allowSigned: bool, r: Option<seq<int>>)
    requires r == Elements(Numeral(n, 10, false), 1, 8, allowSigned)
    ensures r == Some([n]) <==> n <= QUAD_MAX
    ensures n > QUAD_MAX ==> r == Some([QUAD_MAX])
  {
    if n <= QUAD_MAX {
      SmallComesBack(n, allowSigned);
    } else {
      HugeIsClamped(n, allowSigned);
      assert [QUAD_MAX][0] != n;
    }
  }
}
