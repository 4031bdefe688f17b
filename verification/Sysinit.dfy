/** The sysinit scheduler: sort the table, run down it, and start over with the
    merged table whenever a task has registered more tasks. */
module Sysinit {
  import opened Common
  import opened SysinitSpec

  ghost predicate Keyed(s: seq<Task>, keys: Keys) {
    forall t | t in s :: t in keys
  }

  /** The first n entries are in order and not after anything behind them. */
  ghost predicate HeadSorted(s: seq<Task>, keys: Keys, n: int)
    requires Keyed(s, keys)
  {
    forall i, j | 0 <= i < j < |s| && i < n :: KeyLeq(keys[s[i]], keys[s[j]])
  }

  function Swapped(s: seq<Task>, i: nat, j: nat): seq<Task>
    requires i < j < |s|
  {
    s[i := s[j]][j := s[i]]
  }

  lemma SwapKeeps(s: seq<Task>, keys: Keys, i: nat, j: nat)
    requires i < j < |s| && Keyed(s, keys) && HeadSorted(s, keys, i)
    ensures multiset(Swapped(s, i, j)) == multiset(s)
    ensures Keyed(Swapped(s, i, j), keys) && HeadSorted(Swapped(s, i, j), keys, i)
  {
    var r := Swapped(s, i, j);
    forall t | t in r ensures t in keys {
      assert t in multiset(r);
    }
    forall k, l | 0 <= k < l < |r| && k < i ensures KeyLeq(keys[r[k]], keys[r[l]]) {
      assert r[k] == s[k];
      var l' := if l == i then j else if l == j then i else l;
      assert r[l] == s[l'];
    }
  }

  /** One pass of the exchange sort: bring a least entry of the rest to place i. */
  method Pass(a: array<Task>, keys: Keys, i: nat)
    requires i < a.Length && Keyed(a[..], keys) && HeadSorted(a[..], keys, i)
    modifies a
    ensures multiset(a[..]) == old(multiset(a[..]))
    ensures Keyed(a[..], keys) && HeadSorted(a[..], keys, i + 1)
  {
    var j := i + 1;
    while j < a.Length
      invariant i < j <= a.Length
      invariant multiset(a[..]) == old(multiset(a[..]))
      invariant Keyed(a[..], keys) && HeadSorted(a[..], keys, i)
      invariant forall l | i < l < j :: KeyLeq(keys[a[..][i]], keys[a[..][l]])
    {
      assert a[i] in a[..] && a[j] in a[..];
      if !KeyLeq(keys[a[i]], keys[a[j]]) {
        ghost var s := a[..];
        SwapKeeps(s, keys, i, j);
        a[i], a[j] := a[j], a[i];
        assert a[..] == Swapped(s, i, j);
      }
      j := j + 1;
    }
  }

  /** The exchange sort of mi_startup, in place. */
  method ExchangeSort(a: array<Task>, keys: Keys)
    requires Keyed(a[..], keys)
    modifies a
    ensures multiset(a[..]) == old(multiset(a[..]))
    ensures Keyed(a[..], keys) && HeadSorted(a[..], keys, a.Length)
    ensures forall i, j | 0 <= i < j < a.Length ::
              && a[i] in keys && a[j] in keys
              && keys[a[i]].subsystem <= keys[a[j]].subsystem
              && (keys[a[i]].subsystem == keys[a[j]].subsystem ==> keys[a[i]].order <= keys[a[j]].order)
  {
    var i := 0;
    while i < a.Length
      invariant i <= a.Length
      invariant multiset(a[..]) == old(multiset(a[..]))
      invariant Keyed(a[..], keys) && HeadSorted(a[..], keys, i)
    {
      Pass(a, keys, i);
      i := i + 1;
    }
    assert forall k | 0 <= k < a.Length :: a[..][k] == a[k];
  }

  lemma ElemsConcat(a: seq<Task>, b: seq<Task>)
    ensures Elems(a + b) == Elems(a) + Elems(b)
  {
  }

  /** The keys once these tasks have been checked off. */
  ghost predicate Marked(keys0: Keys, calls: seq<Task>, keys: Keys) {
    && keys.Keys == keys0.Keys
    && forall t | t in keys :: keys[t] == if t in calls then keys0[t].(subsystem := SI_SUB_DONE) else keys0[t]
  }

  lemma SameElems(a: seq<Task>, b: seq<Task>)
    requires multiset(a) == multiset(b)
    ensures Elems(a) == Elems(b)
  {
    forall t: Task ensures t in a <==> t in b {
      assert t in a <==> t in multiset(a);
    }
  }

  ghost function ToDo(keys: Keys): set<Task> {
    set t | t in keys && Runnable(keys, t)
  }

  /** The first i entries need no more running, and what is left to run has the
      keys the table was sorted by. */
  ghost predicate Passed(sortKeys: Keys, keys: Keys, table: seq<Task>, i: int) {
    && (forall k | 0 <= k < i && k < |table| :: !Runnable(keys, table[k]))
    && (forall t | t in keys && Runnable(keys, t) :: t in sortKeys && keys[t] == sortKeys[t])
  }

  /** Whatever tasks add belongs to the universe of tasks. */
  ghost predicate Closed(script: Script, keys: Keys) {
    forall calls, t, s | s in script(calls, t) :: Keyed(s, keys)
  }

  lemma NothingPassedOver(keys0: Keys, keys: Keys, sortKeys: Keys, calls: seq<Task>, table: seq<Task>)
    requires Passed(sortKeys, keys, table, |table|) && Marked(keys0, calls, keys) && Keyed(table, keys)
    ensures NothingLeft(keys0, Elems(table), calls)
  {
    forall t | t in table && Runnable(keys0, t) ensures t in calls {
      var k :| 0 <= k < |table| && table[k] == t;
      assert !Runnable(keys, table[k]);
    }
  }

  lemma CheckOff(sortKeys: Keys, keys: Keys, table: seq<Task>, i: nat)
    requires i < |table| && Passed(sortKeys, keys, table, i) && Runnable(keys, table[i])
    ensures var keys' := keys[table[i] := keys[table[i]].(subsystem := SI_SUB_DONE)];
            Passed(sortKeys, keys', table, i + 1) && ToDo(keys') < ToDo(sortKeys)
  {
    var keys' := keys[table[i] := keys[table[i]].(subsystem := SI_SUB_DONE)];
    assert table[i] in ToDo(sortKeys) && table[i] !in ToDo(keys');
  }

  /** The first task not checked off in a sorted table is a least one. */
  lemma PickIsLeast(keys0: Keys, keys: Keys, sortKeys: Keys, calls: seq<Task>, table: seq<Task>, i: nat)
    requires i < |table| && Keyed(table, sortKeys) && HeadSorted(table, sortKeys, |table|)
    requires Keyed(table, keys) && Marked(keys0, calls, keys) && Runnable(keys, table[i])
    requires Passed(sortKeys, keys, table, i)
    ensures Picks(keys0, Elems(table), calls, table[i])
  {
    forall u | u in table && Runnable(keys0, u) && u !in calls ensures KeyLeq(keys0[table[i]], keys0[u]) {
      assert Runnable(keys, u);
      var j :| 0 <= j < |table| && table[j] == u;
    }
  }

  class Startup {
    const staticSet: seq<Task>
    var sysinit: array?<Task>
    var newsysinit: array?<Task>
    var keys: Keys

    ghost function Repr(): set<object>
      reads this
    {
      {this} + (if sysinit == null then {} else {sysinit}) + (if newsysinit == null then {} else {newsysinit})
    }

    ghost predicate Valid()
      reads this, Repr()
    {
      && Keyed(staticSet, keys)
      && (sysinit != null ==> sysinit != newsysinit && Keyed(sysinit[..], keys))
      && (newsysinit != null ==> Keyed(newsysinit[..], keys))
    }

    constructor (staticSet: seq<Task>, keys: Keys)
      requires Keyed(staticSet, keys)
      ensures Valid() && fresh(Repr())
      ensures this.staticSet == staticSet && this.keys == keys && sysinit == null && newsysinit == null
    {
      this.staticSet, this.keys := staticSet, keys;
      sysinit, newsysinit := null, null;
    }

    ghost function Pending(): Option<set<Task>>
      reads this, Repr()
    {
      if newsysinit == null then None else Some(Elems(newsysinit[..]))
    }

    /** The tables as mi_startup finds them; the static set stands in until the first call. */
    ghost function View(): Tables
      reads this, Repr()
    {
      Tables(Elems(if sysinit == null then staticSet else sysinit[..]), Pending())
    }

    /** sysinit_add: a fresh table holding the newest one so far, then the set. */
    method SysinitAdd(s: seq<Task>)
      requires Valid() && Keyed(s, keys)
      modifies this`newsysinit
      ensures Valid() && newsysinit != null && fresh(newsysinit)
      ensures newsysinit[..] == old(if newsysinit != null then newsysinit[..]
                                    else if sysinit != null then sysinit[..] else []) + s
    {
      var base := if newsysinit != null then newsysinit else sysinit;
      var count := |s| + if base != null then base.Length else 0;
      var newset := new Task[count];
      var x := 0;
      if base != null {
        while x < base.Length
          invariant x <= base.Length <= count
          invariant newset[..x] == base[..x]
        {
          newset[x] := base[x];
          x := x + 1;
        }
      }
      ghost var copied := if base != null then base[..] else [];
      assert newset[..x] == copied;
      var i := 0;
      while i < |s|
        invariant i <= |s| && x == |copied| + i && count == |copied| + |s|
        invariant newset[..x] == copied + s[..i]
      {
        newset[x] := s[i];
        x := x + 1;
        i := i + 1;
      }
      assert newset[..] == copied + s;
      newsysinit := newset;
    }

    /** The function of a task, as far as startup can see: the sets it adds. */
    method CallTask(sets: seq<seq<Task>>)
      requires Valid() && sysinit != null && forall s | s in sets :: Keyed(s, keys)
      modifies this`newsysinit
      ensures Valid() && (newsysinit == old(newsysinit) || fresh(newsysinit))
      ensures View() == AddSets(old(View()), sets)
    {
      var k := 0;
      assert sets[..0] == [];
      while k < |sets|
        invariant k <= |sets| && Valid() && (newsysinit == old(newsysinit) || fresh(newsysinit))
        invariant View() == AddSets(old(View()), sets[..k])
      {
        assert sets[..k + 1][..k] == sets[..k];
        assert Keyed(sets[k], keys);
        label Before:
        SysinitAdd(sets[k]);
        ElemsConcat(newsysinit[..|newsysinit[..]| - |sets[k]|], sets[k]);
        assert newsysinit[..] == newsysinit[..|newsysinit[..]| - |sets[k]|] + sets[k];
        assert View() == AddSet(old@Before(View()), Elems(sets[k]));
        k := k + 1;
      }
      assert sets[..k] == sets;
    }

    /** Run one task, check it off, and take over the merged table if there is one. */
    method RunTask(t: Task, sets: seq<seq<Task>>) returns (restart: bool)
      requires Valid() && sysinit != null && t in keys && forall s | s in sets :: Keyed(s, keys)
      modifies this`newsysinit, this`sysinit, this`keys
      ensures Valid() && sysinit != null && fresh(Repr() - old(Repr()))
      ensures View() == Swap(AddSets(old(View()), sets))
      ensures keys == old(keys)[t := old(keys)[t].(subsystem := SI_SUB_DONE)]
      ensures !restart ==> sysinit == old(sysinit) && newsysinit == null
    {
      CallTask(sets);
      keys := keys[t := keys[t].(subsystem := SI_SUB_DONE)];
      restart := false;
      if newsysinit != null {
        sysinit := newsysinit;
        newsysinit := null;
        restart := true;
      }
    }

    /** The calls so far, from the keys and tables at entry, account for the present state. */
    ghost predicate Accounted(keys0: Keys, tb: Tables, calls: seq<Task>, script: Script)
      reads this, Repr()
    {
      && Valid() && sysinit != null
      && Marked(keys0, calls, keys)
      && Legal(keys0, tb, calls, script)
      && After(tb, calls, script) == View()
    }

    /** Run the task the scheduler picked. */
    method Perform(script: Script, calls: seq<Task>, t: Task, ghost keys0: Keys, ghost tb: Tables)
      returns (restart: bool)
      requires Accounted(keys0, tb, calls, script) && Closed(script, keys0)
      requires Picks(keys0, View().cur, calls, t)
      modifies this`newsysinit, this`sysinit, this`keys
      ensures Accounted(keys0, tb, calls + [t], script) && fresh(Repr() - old(Repr()))
      ensures keys == old(keys)[t := old(keys)[t].(subsystem := SI_SUB_DONE)]
      ensures !restart ==> sysinit == old(sysinit) && newsysinit == null
    {
      LegalSnoc(keys0, tb, calls, script, t);
      forall s | s in script(calls, t) ensures Keyed(s, keys) {
        assert Keyed(s, keys0);
      }
      restart := RunTask(t, script(calls, t));
    }

    /** Skip an entry that is a dummy or done, else run it. */
    method VisitEntry(script: Script, before: seq<Task>, i: nat, ghost keys0: Keys, ghost tb: Tables,
                      ghost sortKeys: Keys, ghost table: seq<Task>)
      returns (calls: seq<Task>, restart: bool)
      requires Accounted(keys0, tb, before, script) && Closed(script, keys0)
      requires sysinit[..] == table && i < |table| && Keyed(table, sortKeys) && HeadSorted(table, sortKeys, |table|)
      requires Passed(sortKeys, keys, table, i)
      modifies this`newsysinit, this`sysinit, this`keys
      ensures Accounted(keys0, tb, calls, script) && fresh(Repr() - old(Repr()))
      ensures restart ==> ToDo(keys) < ToDo(sortKeys)
      ensures !restart ==> sysinit == old(sysinit) && Passed(sortKeys, keys, table, i + 1)
    {
      var t := sysinit[i];
      assert t == table[i] && t in table;
      calls, restart := before, false;
      if keys[t].subsystem != SI_SUB_DUMMY && keys[t].subsystem != SI_SUB_DONE {
        PickIsLeast(keys0, keys, sortKeys, calls, table, i);
        CheckOff(sortKeys, keys, table, i);
        restart := Perform(script, calls, t, keys0, tb);
        calls := calls + [t];
      }
    }

    /** Run down the sorted table, until its end or until it is replaced. */
    method Traverse(script: Script, before: seq<Task>, ghost keys0: Keys, ghost tb: Tables)
      returns (calls: seq<Task>, restart: bool)
      requires Accounted(keys0, tb, before, script) && Closed(script, keys0)
      requires HeadSorted(sysinit[..], keys, sysinit.Length)
      modifies this`newsysinit, this`sysinit, this`keys
      ensures Accounted(keys0, tb, calls, script) && fresh(Repr() - old(Repr()))
      ensures restart ==> ToDo(keys) < ToDo(old(keys))
      ensures !restart ==> NothingLeft(keys0, View().cur, calls)
    {
      calls, restart := before, false;
      ghost var table := sysinit[..];
      var i := 0;
      while i < sysinit.Length
        invariant i <= |table| && sysinit == old(sysinit) && sysinit[..] == table
        invariant Accounted(keys0, tb, calls, script) && fresh(Repr() - old(Repr()))
        invariant !restart && Passed(old(keys), keys, table, i)
        decreases |table| - i
      {
        calls, restart := VisitEntry(script, calls, i, keys0, tb, old(keys), table);
        if restart {
          return;
        }
        i := i + 1;
      }
      NothingPassedOver(keys0, keys, old(keys), calls, table);
    }

    /** Sort the table in place; nothing the schedule depends on changes. */
    method SortTable(ghost keys0: Keys, ghost tb: Tables, ghost calls: seq<Task>, ghost script: Script)
      requires Accounted(keys0, tb, calls, script)
      modifies sysinit
      ensures Accounted(keys0, tb, calls, script) && HeadSorted(sysinit[..], keys, sysinit.Length)
    {
      ghost var before := sysinit[..];
      ExchangeSort(sysinit, keys);
      SameElems(before, sysinit[..]);
    }

    /** The first entry to mi_startup copies the linker's set. */
    method LoadStatic()
      requires Valid()
      modifies this`sysinit
      ensures Valid() && sysinit != null && View() == old(View()) && fresh(Repr() - old(Repr()))
    {
      if sysinit == null {
        sysinit := new Task[|staticSet|](i requires 0 <= i < |staticSet| => staticSet[i]);
        assert sysinit[..] == staticSet;
      }
    }

    /** From the restart label to the next jump back to it, or to the end. */
    method SortAndRun(script: Script, before: seq<Task>, ghost keys0: Keys, ghost tb: Tables)
      returns (calls: seq<Task>, restart: bool)
      requires Accounted(keys0, tb, before, script) && Closed(script, keys0)
      modifies Repr()
      ensures Accounted(keys0, tb, calls, script) && fresh(Repr() - old(Repr()))
      ensures restart ==> ToDo(keys) < ToDo(old(keys))
      ensures !restart ==> NothingLeft(keys0, View().cur, calls)
    {
      SortTable(keys0, tb, before, script);
      calls, restart := Traverse(script, before, keys0, tb);
    }

    /** The goto-restart loop: each restart follows a call, and each call checks
        off one more task of a finite universe. */
    method RunToEnd(script: Script, ghost keys0: Keys, ghost tb: Tables) returns (calls: seq<Task>)
      requires Accounted(keys0, tb, [], script) && Closed(script, keys0)
      modifies Repr()
      ensures Accounted(keys0, tb, calls, script) && fresh(Repr() - old(Repr()))
      ensures NothingLeft(keys0, View().cur, calls)
    {
      calls := [];
      var restart := true;
      while restart
        invariant Accounted(keys0, tb, calls, script) && fresh(Repr() - old(Repr()))
        invariant !restart ==> NothingLeft(keys0, View().cur, calls)
        decreases restart, ToDo(keys)
      {
        calls, restart := SortAndRun(script, calls, keys0, tb);
      }
    }

    /** mi_startup */
    method MiStartup(script: Script) returns (calls: seq<Task>)
      requires Valid() && Closed(script, keys)
      modifies Repr()
      ensures Valid() && sysinit != null && fresh(Repr() - old(Repr()))
      ensures Complete(old(keys), old(View()), calls, script)
      ensures Marked(old(keys), calls, keys) && View() == After(old(View()), calls, script)
    {
      LoadStatic();
      calls := RunToEnd(script, keys, View());
    }
  }
}
