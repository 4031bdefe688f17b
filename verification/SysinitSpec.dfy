/** What startup promises, over tables of tasks seen as sets: which task each
    call may pick, and which tasks have run in the end. */
module SysinitSpec {
  import opened Common

  type Task = nat

  const SI_SUB_DUMMY := 0
  const SI_SUB_DONE := 1

  datatype Key = Key(subsystem: nat, order: nat)
  type Keys = map<Task, Key>

  /** The order mi_startup sorts by: subsystem, then order. */
  predicate KeyLeq(a: Key, b: Key) {
    a.subsystem < b.subsystem || (a.subsystem == b.subsystem && a.order <= b.order)
  }

  predicate Runnable(keys: Keys, t: Task) {
    t in keys && keys[t].subsystem != SI_SUB_DUMMY && keys[t].subsystem != SI_SUB_DONE
  }

  /** The sets a task's function passes to sysinit_add, in order; it may depend
      on the calls made before it. */
  type Script = (seq<Task>, Task) -> seq<seq<Task>>

  function Elems(s: seq<Task>): set<Task> {
    set t | t in s
  }

  /** The current table and the one sysinit_add has prepared to replace it. */
  datatype Tables = Tables(cur: set<Task>, pend: Option<set<Task>>)

  function AddSet(tb: Tables, s: set<Task>): Tables {
    Tables(tb.cur, Some((if tb.pend.Some? then tb.pend.value else tb.cur) + s))
  }

  function AddSets(tb: Tables, sets: seq<seq<Task>>): Tables {
    if sets == [] then tb
    else AddSet(AddSets(tb, sets[..|sets| - 1]), Elems(sets[|sets| - 1]))
  }

  function Swap(tb: Tables): Tables {
    if tb.pend.Some? then Tables(tb.pend.value, None) else tb
  }

  /** The tables after these calls. */
  function After(tb: Tables, calls: seq<Task>, script: Script): Tables {
    if calls == [] then tb
    else
      var before, t := calls[..|calls| - 1], calls[|calls| - 1];
      Swap(AddSets(After(tb, before, script), script(before, t)))
  }

  /** t is a least runnable task of the table among those not called yet. */
  ghost predicate Picks(keys: Keys, table: set<Task>, called: seq<Task>, t: Task) {
    && t in table && Runnable(keys, t) && t !in called
    && forall u | u in table && Runnable(keys, u) && u !in called :: KeyLeq(keys[t], keys[u])
  }

  ghost predicate Legal(keys: Keys, tb: Tables, calls: seq<Task>, script: Script) {
    forall k | 0 <= k < |calls| :: Picks(keys, After(tb, calls[..k], script).cur, calls[..k], calls[k])
  }

  ghost predicate NothingLeft(keys: Keys, table: set<Task>, called: seq<Task>) {
    forall t | t in table && Runnable(keys, t) :: t in called
  }

  /** A whole startup: legal calls until the table has nothing left to run. */
  ghost predicate Complete(keys: Keys, tb: Tables, calls: seq<Task>, script: Script) {
    Legal(keys, tb, calls, script) && NothingLeft(keys, After(tb, calls, script).cur, calls)
  }

  lemma LegalSnoc(keys: Keys, tb: Tables, calls: seq<Task>, script: Script, t: Task)
    requires Legal(keys, tb, calls, script) && Picks(keys, After(tb, calls, script).cur, calls, t)
    ensures Legal(keys, tb, calls + [t], script)
    ensures After(tb, calls + [t], script) == Swap(AddSets(After(tb, calls, script), script(calls, t)))
  {
    var all := calls + [t];
    assert all[..|calls|] == calls;
    forall k | 0 <= k < |all| ensures Picks(keys, After(tb, all[..k], script).cur, all[..k], all[k]) {
      if k < |calls| { assert all[..k] == calls[..k]; }
    }
  }

  function AllOf(sets: seq<seq<Task>>): set<Task> {
    if sets == [] then {} else AllOf(sets[..|sets| - 1]) + Elems(sets[|sets| - 1])
  }

  /** Everything registered by these calls. */
  function Added(calls: seq<Task>, script: Script): set<Task> {
    if calls == [] then {}
    else
      var before, t := calls[..|calls| - 1], calls[|calls| - 1];
      Added(before, script) + AllOf(script(before, t))
  }

  lemma {:induction false} AddSetsIsUnion(tb: Tables, sets: seq<seq<Task>>)
    ensures var r, base := AddSets(tb, sets), if tb.pend.Some? then tb.pend.value else tb.cur;
            && r.cur == tb.cur
            && (r.pend.Some? <==> tb.pend.Some? || sets != [])
            && (r.pend.Some? ==> r.pend.value == base + AllOf(sets))
  {
    if sets != [] { AddSetsIsUnion(tb, sets[..|sets| - 1]); }
  }

  /** With no table prepared beforehand nothing is ever dropped: the table is
      the initial one and everything added since. */
  lemma {:induction false} TableGrows(tb: Tables, calls: seq<Task>, script: Script)
    requires tb.pend.None?
    ensures After(tb, calls, script) == Tables(tb.cur + Added(calls, script), None)
  {
    if calls != [] {
      var before, t := calls[..|calls| - 1], calls[|calls| - 1];
      TableGrows(tb, before, script);
      AddSetsIsUnion(After(tb, before, script), script(before, t));
    }
  }

  /** A table prepared before startup replaces the initial one at the first call. */
  lemma {:induction false} TableReplaced(tb: Tables, calls: seq<Task>, script: Script)
    requires tb.pend.Some?
    ensures After(tb, calls, script) ==
            if calls == [] then tb else Tables(tb.pend.value + Added(calls, script), None)
  {
    if calls != [] {
      var before, t := calls[..|calls| - 1], calls[|calls| - 1];
      TableReplaced(tb, before, script);
      AddSetsIsUnion(After(tb, before, script), script(before, t));
    }
  }

  /** Every task ever registered: at the start, prepared, or added by a call. */
  function Registered(tb: Tables, calls: seq<Task>, script: Script): set<Task> {
    tb.cur + (if tb.pend.Some? then tb.pend.value else {}) + Added(calls, script)
  }

  /** Priority order across additions and restarts: each call runs a task that is
      neither a dummy nor done, and a least one, by subsystem and then by order,
      among all such tasks registered by then and not called yet. */
  lemma EachCallIsLeast(keys: Keys, tb: Tables, calls: seq<Task>, script: Script, k: nat, u: Task)
    requires Legal(keys, tb, calls, script) && tb.pend.None? && k < |calls|
    requires u in Registered(tb, calls[..k], script) && u in keys && keys[u].subsystem > 1 && u !in calls[..k]
    ensures calls[k] in keys && calls[k] !in calls[..k]
    ensures var first, other := keys[calls[k]], keys[u];
            && 1 < first.subsystem <= other.subsystem
            && (first.subsystem == other.subsystem ==> first.order <= other.order)
  {
    assert Picks(keys, After(tb, calls[..k], script).cur, calls[..k], calls[k]);
    TableGrows(tb, calls[..k], script);
  }

  lemma CalledOnce(keys: Keys, tb: Tables, calls: seq<Task>, script: Script, i: nat, j: nat)
    requires Legal(keys, tb, calls, script) && i < j < |calls|
    ensures calls[i] != calls[j]
  {
    assert Picks(keys, After(tb, calls[..j], script).cur, calls[..j], calls[j]);
    assert calls[..j][i] == calls[i];
  }

  /** Every registered task that is not a dummy runs, and only such tasks run. */
  ghost predicate RunsAll(keys: Keys, tb: Tables, calls: seq<Task>, script: Script) {
    forall t :: t in calls <==> t in Registered(tb, calls, script) && Runnable(keys, t)
  }

  lemma {:induction false} AddedGrows(calls: seq<Task>, script: Script, k: nat)
    requires k <= |calls|
    ensures Added(calls[..k], script) <= Added(calls, script)
    decreases |calls|
  {
    if k == |calls| {
      assert calls[..k] == calls;
    } else {
      var before := calls[..|calls| - 1];
      AddedGrows(before, script, k);
      assert before[..k] == calls[..k];
    }
  }

  lemma CalledIsRegistered(keys: Keys, tb: Tables, calls: seq<Task>, script: Script, k: nat)
    requires Legal(keys, tb, calls, script) && k < |calls|
    ensures calls[k] in Registered(tb, calls, script) && Runnable(keys, calls[k])
  {
    assert Picks(keys, After(tb, calls[..k], script).cur, calls[..k], calls[k]);
    if tb.pend.Some? {
      TableReplaced(tb, calls[..k], script);
    } else {
      TableGrows(tb, calls[..k], script);
    }
    AddedGrows(calls, script, k);
  }

  /** Exactly-once execution: if nothing was passed to sysinit_add before
      startup, every task ever registered that is not a dummy runs exactly once. */
  lemma EveryTaskRunsOnce(keys: Keys, tb: Tables, calls: seq<Task>, script: Script)
    requires Complete(keys, tb, calls, script) && tb.pend.None?
    ensures RunsAll(keys, tb, calls, script)
    ensures forall t :: t in calls <==> t in Registered(tb, calls, script) && t in keys && keys[t].subsystem > 1
    ensures forall i, j | 0 <= i < j < |calls| :: calls[i] != calls[j]
  {
    forall i, j | 0 <= i < j < |calls| ensures calls[i] != calls[j] {
      CalledOnce(keys, tb, calls, script, i, j);
    }
    forall k | 0 <= k < |calls|
      ensures calls[k] in Registered(tb, calls, script) && Runnable(keys, calls[k])
    {
      CalledIsRegistered(keys, tb, calls, script, k);
    }
    TableGrows(tb, calls, script);
  }

  /** Sets added before startup cost the initial table: what it alone holds is
      lost after the first call. Exactly when that loses nothing, all tasks run. */
  lemma AddedBeforeStartup(keys: Keys, tb: Tables, calls: seq<Task>, script: Script)
    requires Complete(keys, tb, calls, script) && tb.pend.Some?
    ensures calls == [] ==> (RunsAll(keys, tb, calls, script) <==> NothingLeft(keys, tb.pend.value, []))
    ensures calls != [] ==>
              (RunsAll(keys, tb, calls, script) <==>
               forall t | t in tb.cur && Runnable(keys, t) && t != calls[0] ::
                 t in tb.pend.value || t in Added(calls, script))
  {
    forall k | 0 <= k < |calls|
      ensures calls[k] in Registered(tb, calls, script) && Runnable(keys, calls[k])
    {
      CalledIsRegistered(keys, tb, calls, script, k);
    }
    TableReplaced(tb, calls, script);
    forall k | 1 <= k < |calls|
      ensures calls[k] in tb.pend.value || calls[k] in Added(calls, script)
    {
      assert Picks(keys, After(tb, calls[..k], script).cur, calls[..k], calls[k]);
      TableReplaced(tb, calls[..k], script);
      AddedGrows(calls, script, k);
    }
    if calls != [] {
      assert forall t | t in calls && t != calls[0] :: t in tb.pend.value || t in Added(calls, script);
    }
  }

  /** What the first call leaves of the static set is safe: a runnable static
      task that is not in the prepared table comes before all other ones. */
  ghost predicate StaticSafe(keys: Keys, tb: Tables)
    requires tb.pend.Some?
  {
    forall t, u | t in tb.cur && Runnable(keys, t) && t !in tb.pend.value && u in tb.cur && Runnable(keys, u) && u != t ::
      !KeyLeq(keys[u], keys[t])
  }

  ghost predicate SomeRunnable(keys: Keys, table: set<Task>) {
    exists t | t in table :: Runnable(keys, t)
  }

  /** No two runnable tasks of the table have the same key. */
  ghost predicate NoTies(keys: Keys, table: set<Task>) {
    forall t, u | t in table && u in table && Runnable(keys, t) && Runnable(keys, u) && keys[t] == keys[u] :: t == u
  }

  ghost predicate NeverAdds(script: Script, table: set<Task>) {
    forall calls, t, s | s in script(calls, t) :: Elems(s) !! table
  }

  /** The first call, if anything in the static set is runnable, is a least task of it. */
  lemma FirstCall(keys: Keys, tb: Tables, calls: seq<Task>, script: Script)
    requires Complete(keys, tb, calls, script)
    ensures calls != [] <==> SomeRunnable(keys, tb.cur)
    ensures calls != [] ==> Picks(keys, tb.cur, [], calls[0])
  {
    if calls != [] {
      assert calls[..0] == [];
      assert Picks(keys, After(tb, calls[..0], script).cur, calls[..0], calls[0]);
    }
  }

  lemma {:induction false} AllOfApart(sets: seq<seq<Task>>, table: set<Task>)
    requires forall s | s in sets :: Elems(s) !! table
    ensures AllOf(sets) !! table
  {
    if sets != [] { AllOfApart(sets[..|sets| - 1], table); }
  }

  lemma {:induction false} AddedApart(calls: seq<Task>, script: Script, table: set<Task>)
    requires NeverAdds(script, table)
    ensures Added(calls, script) !! table
  {
    if calls != [] {
      var before, t := calls[..|calls| - 1], calls[|calls| - 1];
      AddedApart(before, script, table);
      AllOfApart(script(before, t), table);
    }
  }

  /** A condition to check before startup, whatever the tasks add later: if the
      static set is safe nothing is lost. */
  lemma SafeBeforeStartup(keys: Keys, tb: Tables, calls: seq<Task>, script: Script)
    requires Complete(keys, tb, calls, script) && tb.pend.Some?
    requires SomeRunnable(keys, tb.cur) && StaticSafe(keys, tb)
    ensures RunsAll(keys, tb, calls, script)
  {
    FirstCall(keys, tb, calls, script);
    AddedBeforeStartup(keys, tb, calls, script);
  }

  /** It is exact when no task adds a static one again and no two runnable
      static tasks tie: then tables prepared before startup cost no task if and
      only if the static set is safe. With nothing runnable in the static set
      startup makes no call, and the prepared table is never looked at. */
  lemma PreparedExact(keys: Keys, tb: Tables, calls: seq<Task>, script: Script)
    requires Complete(keys, tb, calls, script) && tb.pend.Some?
    requires NoTies(keys, tb.cur) && NeverAdds(script, tb.cur)
    ensures RunsAll(keys, tb, calls, script) <==>
            if SomeRunnable(keys, tb.cur) then StaticSafe(keys, tb) else NothingLeft(keys, tb.pend.value, [])
  {
    FirstCall(keys, tb, calls, script);
    AddedBeforeStartup(keys, tb, calls, script);
    AddedApart(calls, script, tb.cur);
  }

  /** A nonempty set of tasks has one of least key. */
  lemma {:induction false} LeastExists(keys: Keys, left: set<Task>) returns (t: Task)
    requires left != {} && forall u | u in left :: u in keys
    ensures t in left && forall u | u in left :: KeyLeq(keys[t], keys[u])
    decreases |left|
  {
    var x :| x in left;
    var others := left - {x};
    if others == {} {
      assert left == {x};
      t := x;
    } else {
      var y := LeastExists(keys, others);
      t := if KeyLeq(keys[x], keys[y]) then x else y;
      assert forall u | u in left :: u == x || u in others;
    }
  }

  /** Every legal beginning goes on to a complete startup: there are finitely
      many tasks with keys, and each call takes one. */
  lemma {:induction false} Completes(keys: Keys, tb: Tables, calls: seq<Task>, script: Script) returns (all: seq<Task>)
    requires Legal(keys, tb, calls, script)
    ensures Complete(keys, tb, all, script) && calls <= all
    decreases keys.Keys - Elems(calls)
  {
    var table := After(tb, calls, script).cur;
    var left := set t | t in table && Runnable(keys, t) && t !in calls;
    if left == {} {
      assert NothingLeft(keys, table, calls) by {
        forall t | t in table && Runnable(keys, t) ensures t in calls {
          assert t !in left;
        }
      }
      all := calls;
    } else {
      var t := LeastExists(keys, left);
      assert Picks(keys, table, calls, t);
      LegalSnoc(keys, tb, calls, script, t);
      assert t in keys.Keys - Elems(calls) && t in Elems(calls + [t]);
      assert keys.Keys - Elems(calls + [t]) < keys.Keys - Elems(calls);
      all := Completes(keys, tb, calls + [t], script);
    }
  }

  /** If some static task outside the prepared table is not strictly first, some
      startup calls another one first. */
  lemma UnsafeFirst(keys: Keys, tb: Tables, t: Task, u: Task) returns (c: Task)
    requires t in tb.cur && Runnable(keys, t) && u in tb.cur && Runnable(keys, u) && u != t && KeyLeq(keys[u], keys[t])
    ensures c != t && Picks(keys, tb.cur, [], c)
  {
    var left := set x | x in tb.cur && Runnable(keys, x);
    assert t in left && u in left;
    var least := LeastExists(keys, left);
    c := if least == t then u else least;
    forall x | x in tb.cur && Runnable(keys, x) ensures KeyLeq(keys[c], keys[x]) {
      assert x in left;
    }
  }

  lemma UnsafeLoses(keys: Keys, tb: Tables, script: Script) returns (calls: seq<Task>)
    requires tb.pend.Some? && NeverAdds(script, tb.cur) && SomeRunnable(keys, tb.cur) && !StaticSafe(keys, tb)
    ensures Complete(keys, tb, calls, script) && !RunsAll(keys, tb, calls, script)
  {
    var t, u :| t in tb.cur && Runnable(keys, t) && t !in tb.pend.value && u in tb.cur && Runnable(keys, u) && u != t
                && KeyLeq(keys[u], keys[t]);
    var c := UnsafeFirst(keys, tb, t, u);
    LegalSnoc(keys, tb, [], script, c);
    calls := Completes(keys, tb, [] + [c], script);
    AddedBeforeStartup(keys, tb, calls, script);
    AddedApart(calls, script, tb.cur);
    assert calls[0] == c;
  }

  ghost predicate AlwaysRunsAll(keys: Keys, tb: Tables, script: Script) {
    forall calls | Complete(keys, tb, calls, script) :: RunsAll(keys, tb, calls, script)
  }

  /** Ties or not, when no task adds a static one again: every startup, whichever
      way it orders tasks of equal keys, runs all tasks if and only if the
      static set is safe. */
  lemma PreparedAlways(keys: Keys, tb: Tables, script: Script)
    requires tb.pend.Some? && NeverAdds(script, tb.cur)
    ensures AlwaysRunsAll(keys, tb, script) <==>
            if SomeRunnable(keys, tb.cur) then StaticSafe(keys, tb) else NothingLeft(keys, tb.pend.value, [])
  {
    if !SomeRunnable(keys, tb.cur) {
      assert Complete(keys, tb, [], script);
      AddedBeforeStartup(keys, tb, [], script);
      forall calls | Complete(keys, tb, calls, script) ensures calls == [] {
        FirstCall(keys, tb, calls, script);
      }
    } else if StaticSafe(keys, tb) {
      forall calls | Complete(keys, tb, calls, script) ensures RunsAll(keys, tb, calls, script) {
        SafeBeforeStartup(keys, tb, calls, script);
      }
    } else {
      var calls := UnsafeLoses(keys, tb, script);
    }
  }

  /** A static set of two tasks and a third one added before startup: the first
      task runs, the table is replaced, and the second task never runs. */
  lemma StaticTaskLost(script: Script)
    requires forall calls, t :: script(calls, t) == []
    ensures var keys := map[1 := Key(2, 0), 2 := Key(3, 0), 3 := Key(4, 0)];
            var tb := Tables({1, 2}, Some({3}));
            Complete(keys, tb, [1, 3], script) && !RunsAll(keys, tb, [1, 3], script)
  {
    var keys := map[1 := Key(2, 0), 2 := Key(3, 0), 3 := Key(4, 0)];
    var tb, calls := Tables({1, 2}, Some({3})), [1, 3];
    assert calls[..0] == [] && calls[..1] == [1] && calls[..2] == calls;
    assert [1][..0] == [];
    assert After(tb, [1], script) == Tables({3}, None);
    assert After(tb, calls, script) == Tables({3}, None);
    assert 2 in Registered(tb, calls, script) && Runnable(keys, 2) && 2 !in calls;
  }
}
