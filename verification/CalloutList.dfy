/** The doubly linked bucket lists of the callout wheel, as sequences: removal
    by element, the element after another, and the part of a list that a
    cursor still has in front of it. */
module CalloutList {
  import opened Common

  ghost predicate NoDup<T>(s: seq<T>) {
    forall i, j | 0 <= i < j < |s| :: s[i] != s[j]
  }

  /** LIST_REMOVE */
  function Remove<T(==)>(s: seq<T>, c: T): seq<T> {
    if s == [] then [] else if s[0] == c then s[1..] else [s[0]] + Remove(s[1..], c)
  }

  /** The suffix of s that starts at the cursor; a NULL cursor has nothing ahead. */
  function From<T(==)>(s: seq<T>, cursor: Option<T>): seq<T> {
    if s == [] || cursor.None? then []
    else if s[0] == cursor.value then s
    else From(s[1..], cursor)
  }

  /** LIST_FIRST */
  function First<T>(s: seq<T>): Option<T> {
    if s == [] then None else Some(s[0])
  }

  /** LIST_NEXT */
  function Next<T(==)>(s: seq<T>, c: T): Option<T> {
    var ahead := From(s, Some(c));
    if |ahead| <= 1 then None else Some(ahead[1])
  }

  lemma {:induction false} RemoveContents<T>(s: seq<T>, c: T)
    requires NoDup(s)
    ensures NoDup(Remove(s, c))
    ensures forall x :: x in Remove(s, c) <==> x in s && x != c
  {
    if s == [] {
    } else if s[0] == c {
      assert forall x :: x in s <==> x == s[0] || x in s[1..];
    } else {
      RemoveContents(s[1..], c);
      assert forall x :: x in s <==> x == s[0] || x in s[1..];
      assert forall x :: x in Remove(s, c) <==> x == s[0] || x in Remove(s[1..], c);
      assert s[0] !in Remove(s[1..], c);
    }
  }

  lemma {:induction false} FromContents<T>(s: seq<T>, cursor: Option<T>)
    ensures forall x :: x in From(s, cursor) ==> x in s
    ensures cursor.Some? && cursor.value in s ==> From(s, cursor) != [] && From(s, cursor)[0] == cursor.value
    ensures cursor.Some? && cursor.value !in s ==> From(s, cursor) == []
    ensures NoDup(s) ==> NoDup(From(s, cursor))
  {
    if s != [] && cursor.Some? && s[0] != cursor.value {
      FromContents(s[1..], cursor);
    }
  }

  /** Stepping the cursor drops exactly one element from what is ahead. */
  lemma {:induction false} FromNext<T>(s: seq<T>, c: T)
    requires NoDup(s) && c in s
    ensures From(s, Some(c)) == [c] + From(s, Next(s, c))
    ensures Next(s, c).Some? ==> Next(s, c).value in s && Next(s, c).value != c
    decreases |s|
  {
    FromContents(s, Some(c));
    if s[0] == c {
      if |s| > 1 { assert From(s, Next(s, c)) == From(s[1..], Next(s, c)); }
    } else {
      FromNext(s[1..], c);
      var n := Next(s, c);
      assert n == Next(s[1..], c);
      if n.Some? { assert n.value != s[0]; }
    }
  }

  lemma {:induction false} RemoveAbsent<T>(s: seq<T>, c: T)
    requires c !in s
    ensures Remove(s, c) == s
  {
    if s != [] { RemoveAbsent(s[1..], c); }
  }

  /** Removing an element other than the cursor removes it from what is ahead, and nothing else. */
  lemma {:induction false} FromRemove<T>(s: seq<T>, c: T, cursor: Option<T>)
    requires NoDup(s) && cursor != Some(c)
    ensures From(Remove(s, c), cursor) == Remove(From(s, cursor), c)
  {
    if s == [] || cursor.None? {
    } else if s[0] == cursor.value {
    } else if s[0] == c {
      FromContents(s[1..], cursor);
      RemoveAbsent(From(s[1..], cursor), c);
    } else {
      FromRemove(s[1..], c, cursor);
      assert Remove(s, c)[1..] == Remove(s[1..], c);
    }
  }

  /** Moving the cursor off an element and then removing that element leaves
      ahead exactly what was ahead of it. */
  lemma CursorLeaves<T>(s: seq<T>, c: T)
    requires NoDup(s) && c in s
    ensures From(s, Some(c)) == [c] + From(Remove(s, c), Next(s, c))
    ensures Next(s, c).Some? ==> Next(s, c).value in Remove(s, c)
  {
    FromNext(s, c);
    FromRemove(s, c, Next(s, c));
    RemoveContents(s, c);
    var ahead := From(s, Some(c));
    FromContents(s, Some(c));
    assert c !in ahead[1..];
    RemoveAbsent(ahead[1..], c);
  }
}
