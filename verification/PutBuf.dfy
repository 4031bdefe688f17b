/** Buffered console output: characters gather in a NUL-terminated buffer that
    is handed to the console as a C string when it is nearly full or a line
    ends. */
module PutBuf {
  import opened Common

  /** What a reader of a C string sees of these characters. */
  function CString(s: string): string {
    if s == [] || s[0] == NUL then [] else [s[0]] + CString(s[1..])
  }

  /** Characters sent to the console, and characters in the buffer. */
  datatype Stream = Stream(out: string, buf: string)

  /** One character through a buffer of size n. */
  function Put(st: Stream, c: char, n: nat, tocons: bool): Stream {
    var buf := st.buf + [c];
    if n - |buf| == 2 || c == '\n' then Stream(if tocons then st.out + CString(buf) else st.out, [])
    else Stream(st.out, buf)
  }

  function PutAll(cs: string, n: nat, tocons: bool): Stream {
    if cs == [] then Stream([], []) else Put(PutAll(cs[..|cs| - 1], n, tocons), cs[|cs| - 1], n, tocons)
  }

  /** Everything a reader has seen or would see if the buffer were flushed now. */
  function Shown(st: Stream): string {
    st.out + CString(st.buf)
  }

  function NonNul(cs: string): nat {
    if cs == [] then 0 else NonNul(cs[..|cs| - 1]) + if cs[|cs| - 1] == NUL then 0 else 1
  }

  lemma {:induction false} CStringSnoc(s: string, c: char)
    ensures CString(s + [c]) == if NUL in s || c == NUL then CString(s) else s + [c]
    ensures NUL !in s ==> CString(s) == s
  {
    if s == [] {
      assert s + [c] == [c];
      if c != NUL { assert [c][1..] == []; }
    } else {
      assert (s + [c])[1..] == s[1..] + [c];
      CStringSnoc(s[1..], c);
      assert s == [s[0]] + s[1..];
    }
  }

  /** The stream is conserved, in order, while no NUL is written. */
  lemma {:induction false} StreamConserved(cs: string, n: nat)
    requires NUL !in cs
    ensures var st := PutAll(cs, n, true); st.out + st.buf == cs && NUL !in st.buf
  {
    if cs != [] {
      var before, c := cs[..|cs| - 1], cs[|cs| - 1];
      StreamConserved(before, n);
      var st := PutAll(before, n, true);
      CStringSnoc(st.buf, c);
      assert st.out + (st.buf + [c]) == st.out + st.buf + [c];
      assert cs == before + [c];
    }
  }

  /** The buffer holds the unfinished line, or what of it came after the buffer
      last filled up: no newline, and at most n - 3 characters. */
  lemma {:induction false} BufferIsShort(cs: string, n: nat, tocons: bool)
    requires n >= 3
    ensures var buf := PutAll(cs, n, tocons).buf;
            |buf| <= n - 3 && '\n' !in buf && |buf| <= |cs| && buf == cs[|cs| - |buf|..]
  {
    if cs != [] {
      var before := cs[..|cs| - 1];
      BufferIsShort(before, n, tocons);
      assert cs == before + [cs[|cs| - 1]];
    }
  }

  /** The buffer is flushed by a newline and when two places are left, one of
      them the terminator's, and then it is empty; on any other character
      nothing goes out and the character joins the buffer. */
  lemma FlushedExactly(cs: string, n: nat, tocons: bool, c: char)
    requires n >= 3
    ensures var was, now := PutAll(cs, n, tocons), PutAll(cs + [c], n, tocons);
            if c == '\n' || |was.buf| + 3 == n
            then now.buf == [] && now.out == was.out + if tocons then CString(was.buf + [c]) else []
            else now.buf == was.buf + [c] && now.out == was.out
  {
    assert (cs + [c])[..|cs|] == cs;
    BufferIsShort(cs, n, tocons);
  }

  lemma CStringAtMost(s: string, c: char)
    ensures |CString(s + [c])| <= |CString(s)| + if c == NUL then 0 else 1
  {
    CStringSnoc(s, c);
  }

  lemma {:induction false} ShownAtMost(cs: string, n: nat)
    ensures |Shown(PutAll(cs, n, true))| <= NonNul(cs)
  {
    if cs != [] {
      var before, c := cs[..|cs| - 1], cs[|cs| - 1];
      ShownAtMost(before, n);
      CStringSnoc(PutAll(before, n, true).buf, c);
      CStringAtMost(PutAll(before, n, true).buf, c);
    }
  }

  lemma {:induction false} NulIsLost(cs: string)
    ensures NonNul(cs) <= |cs|
    ensures NUL in cs ==> NonNul(cs) < |cs|
  {
    if cs != [] {
      var before := cs[..|cs| - 1];
      NulIsLost(before);
      assert cs == before + [cs[|cs| - 1]];
    }
  }

  /** What is shown is what was put exactly when no NUL was put. */
  lemma ConservedExactly(cs: string, n: nat)
    ensures Shown(PutAll(cs, n, true)) == cs <==> NUL !in cs
  {
    if NUL in cs {
      ShownAtMost(cs, n);
      NulIsLost(cs);
    } else {
      StreamConserved(cs, n);
      var st := PutAll(cs, n, true);
      CStringSnoc(st.buf, 'x');
    }
  }

  /** ctx_puts reads the buffer up to its terminator. */
  lemma {:induction false} CStringStops(s: string, n: nat)
    requires n < |s| && s[n] == NUL
    ensures CString(s) == CString(s[..n])
  {
    if n > 0 && s[0] != NUL {
      assert s[1..][..n - 1] == s[..n][1..];
      CStringStops(s[1..], n - 1);
    }
  }

  class PutcharArg {
    const tocons: bool
    const tolog: bool
    const pBufr: array?<char>
    var pNext: nat
    var remain: nat
    var out: string

    /** The index and the room add up, the buffer is NUL-terminated within its
        bounds, and there is room for more than the terminator. */
    ghost predicate Valid()
      reads this, pBufr
    {
      pBufr != null ==> pNext + remain == pBufr.Length && remain > 2 && pBufr[pNext] == NUL
    }

    ghost function State(): Stream
      reads this, pBufr
      requires Valid()
    {
      Stream(out, if pBufr == null then [] else pBufr[..pNext])
    }

    constructor (pBufr: array?<char>, tocons: bool, tolog: bool)
      requires pBufr != null ==> pBufr.Length >= 3
      modifies pBufr
      ensures Valid() && State() == Stream([], [])
      ensures this.pBufr == pBufr && this.tocons == tocons && this.tolog == tolog
    {
      this.pBufr, this.tocons, this.tolog := pBufr, tocons, tolog;
      pNext, out := 0, [];
      remain := if pBufr == null then 0 else pBufr.Length;
      new;
      if pBufr != null {
        pBufr[0] := NUL;
      }
    }

    /** putbuf */
    method Putbuf(c: char)
      requires Valid()
      modifies this, pBufr
      ensures Valid()
      ensures pBufr == null ==> State() == Stream(if tocons then old(out) + [c] else old(out), [])
      ensures pBufr != null ==> State() == Put(old(State()), c, pBufr.Length, tocons)
    {
      if pBufr == null {
        if tocons {
          out := out + [c];
        }
        return;
      }
      pBufr[pNext] := c;
      pNext := pNext + 1;
      remain := remain - 1;
      pBufr[pNext] := NUL;
      assert pBufr[..pNext] == old(pBufr[..pNext]) + [c];
      if remain == 2 || c == '\n' {
        if tocons {
          CStringStops(pBufr[..], pNext);
          out := out + CString(pBufr[..]);
        }
        pNext := 0;
        remain := pBufr.Length;
        pBufr[pNext] := NUL;
      }
    }

    /** kputchar */
    method Kputchar(c: char)
      requires Valid()
      modifies this, pBufr
      ensures Valid()
      ensures pBufr == null ==> State() == Stream(if tocons then old(out) + [c] else old(out), [])
      ensures !tocons && (!tolog || c == NUL) ==> State() == old(State())
      ensures (tocons || (tolog && c != NUL)) && pBufr != null ==> State() == Put(old(State()), c, pBufr.Length, tocons)
    {
      var putbufDone := false;
      if tocons {
        Putbuf(c);
        putbufDone := true;
      }
      if tolog && !putbufDone {
        if c != NUL {
          Putbuf(c);
        }
      }
    }

    /** Any characters sent to the console through an empty buffer. */
    method PutMany(cs: string)
      requires Valid() && pBufr != null && tocons && State() == Stream([], [])
      modifies this, pBufr
      ensures Valid() && State() == PutAll(cs, pBufr.Length, true)
      ensures out + CString(pBufr[..pNext]) == cs <==> NUL !in cs
      ensures '\n' !in pBufr[..pNext] && (cs != [] && cs[|cs| - 1] == '\n' ==> pNext == 0)
    {
      var k := 0;
      assert cs[..0] == [];
      while k < |cs|
        invariant k <= |cs| && Valid() && State() == PutAll(cs[..k], pBufr.Length, true)
      {
        assert cs[..k + 1][..k] == cs[..k];
        Kputchar(cs[k]);
        k := k + 1;
      }
      assert cs[..k] == cs;
      ConservedExactly(cs, pBufr.Length);
      BufferIsShort(cs, pBufr.Length, true);
    }
  }
}
