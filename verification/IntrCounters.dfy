/** Interrupt source registration and the allocation of interrupt counters. */
module IntrCounters {

  const EEXIST := 17

  /** Who a counter slot belongs to. */
  datatype Owner = Dummy | Count(vector: nat) | Stray(vector: nat) | Extra(k: nat)

  ghost predicate InRange(used: set<nat>, n: nat) {
    forall v | v in used :: v < n
  }

  lemma {:induction false} AtMost(used: set<nat>, n: nat)
    requires InRange(used, n)
    ensures |used| <= n
  {
    if n == 0 {
      assert used == {};
    } else {
      AtMost(used - {n - 1}, n - 1);
    }
  }

  /** A free vector means that fewer than all vectors are taken. */
  lemma FreeVectorLeavesRoom(used: set<nat>, n: nat, v: nat)
    requires InRange(used, n) && v < n && v !in used
    ensures |used| < n
  {
    AtMost(used + {v}, n);
  }

  ghost predicate Owns(owner: seq<Owner>, slot: nat, o: Owner) {
    slot < |owner| && owner[slot] == o
  }

  /** The slots handed out so far, each with its one owner: a registered source
      owns the pair at its index, the k-th added counter its single slot. */
  ghost predicate Allotted(owner: seq<Owner>, index: nat, used: set<nat>, isIndex: seq<nat>, added: seq<nat>) {
    && |owner| == index
    && Owns(owner, 0, Dummy)
    && (forall v | v in used ::
          v < |isIndex| && Owns(owner, isIndex[v], Count(v)) && Owns(owner, isIndex[v] + 1, Stray(v)))
    && (forall k | 0 <= k < |added| :: Owns(owner, added[k], Extra(k)))
  }

  lemma AllotPair(owner: seq<Owner>, index: nat, used: set<nat>, isIndex: seq<nat>, added: seq<nat>, v: nat)
    requires Allotted(owner, index, used, isIndex, added) && v !in used && v < |isIndex|
    ensures Allotted(owner + [Count(v), Stray(v)], index + 2, used + {v}, isIndex[v := index], added)
  {
  }

  lemma AllotSingle(owner: seq<Owner>, index: nat, used: set<nat>, isIndex: seq<nat>, added: seq<nat>)
    requires Allotted(owner, index, used, isIndex, added)
    ensures Allotted(owner + [Extra(|added|)], index + 1, used, isIndex, added + [index])
  {
  }

  /** The whole state of counter allocation: how many slots there are, how far
      allocation has come, and who owns what. */
  ghost predicate Ledger(numIoIrqs: nat, allowance: nat, nintrcnt: nat, index: nat, used: set<nat>,
                         isIndex: seq<nat>, added: seq<nat>, owner: seq<Owner>) {
    && |isIndex| == numIoIrqs
    && nintrcnt == 1 + 2 * numIoIrqs + allowance
    && InRange(used, numIoIrqs)
    && |added| <= allowance
    && index == 1 + 2 * |used| + |added|
    && Allotted(owner, index, used, isIndex, added)
  }

  lemma LedgerPair(numIoIrqs: nat, allowance: nat, nintrcnt: nat, index: nat, used: set<nat>,
                   isIndex: seq<nat>, added: seq<nat>, owner: seq<Owner>, v: nat)
    requires Ledger(numIoIrqs, allowance, nintrcnt, index, used, isIndex, added, owner)
    requires v < numIoIrqs && v !in used
    ensures index + 2 <= nintrcnt
    ensures Ledger(numIoIrqs, allowance, nintrcnt, index + 2, used + {v}, isIndex[v := index], added,
                   owner + [Count(v), Stray(v)])
  {
    FreeVectorLeavesRoom(used, numIoIrqs, v);
    AllotPair(owner, index, used, isIndex, added, v);
    assert |used + {v}| == |used| + 1;
  }

  lemma LedgerSingle(numIoIrqs: nat, allowance: nat, nintrcnt: nat, index: nat, used: set<nat>,
                     isIndex: seq<nat>, added: seq<nat>, owner: seq<Owner>)
    requires Ledger(numIoIrqs, allowance, nintrcnt, index, used, isIndex, added, owner) && |added| < allowance
    ensures index < nintrcnt
    ensures Ledger(numIoIrqs, allowance, nintrcnt, index + 1, used, isIndex, added + [index],
                   owner + [Extra(|added|)])
  {
    AtMost(used, numIoIrqs);
    AllotSingle(owner, index, used, isIndex, added);
  }

  class IntrState {
    const numIoIrqs: nat
    const mpNcpus: nat
    const countIpis: bool
    const nintrcnt: nat
    const sources: array<bool>
    const isIndex: array<nat>
    var intrcntIndex: nat
    var added: seq<nat>

    ghost var used: set<nat>
    ghost var owner: seq<Owner>

    /** The counters set aside beyond the dummy and two per interrupt. */
    function Allowance(): nat {
      2 * mpNcpus + if countIpis && mpNcpus > 1 then 8 * mpNcpus else 0
    }

    ghost predicate Counters()
      reads this, isIndex
    {
      Ledger(numIoIrqs, Allowance(), nintrcnt, intrcntIndex, used, isIndex[..], added, owner)
    }

    ghost predicate Valid()
      reads this, sources, isIndex
    {
      && Counters()
      && sources as object != isIndex && sources.Length == numIoIrqs
      && (forall v | 0 <= v < numIoIrqs :: v in used <==> sources[v])
    }

    /** intr_init_sources */
    constructor (numIoIrqs: nat, mpNcpus: nat, countIpis: bool)
      requires numIoIrqs > 0
      ensures Valid() && used == {} && added == [] && intrcntIndex == 1
      ensures nintrcnt == 1 + 2 * numIoIrqs + 2 * mpNcpus + if countIpis && mpNcpus > 1 then 8 * mpNcpus else 0
      ensures this.numIoIrqs == numIoIrqs && this.mpNcpus == mpNcpus && this.countIpis == countIpis
      ensures fresh(sources) && fresh(isIndex)
    {
      this.numIoIrqs, this.mpNcpus, this.countIpis := numIoIrqs, mpNcpus, countIpis;
      sources := new bool[numIoIrqs](_ => false);
      isIndex := new nat[numIoIrqs](_ => 0);
      var n := 1 + numIoIrqs * 2 + mpNcpus * 2;
      if countIpis && mpNcpus > 1 {
        n := n + 8 * mpNcpus;
      }
      nintrcnt := n;
      intrcntIndex := 1;
      added, used, owner := [], {}, [Dummy];
    }

    /** Hand the next two slots to this vector. */
    method TakePair(vector: nat)
      requires vector < isIndex.Length
      modifies this`intrcntIndex, isIndex
      ensures intrcntIndex == old(intrcntIndex) + 2
      ensures isIndex[..] == old(isIndex[..])[vector := old(intrcntIndex)]
    {
      isIndex[vector] := intrcntIndex;
      intrcntIndex := intrcntIndex + 2;
    }

    /** intrcnt_register: a vector without counters gets a pair, and there is one left. */
    method IntrcntRegister(vector: nat)
      requires Counters() && vector < numIoIrqs && vector !in used
      modifies this`intrcntIndex, this`owner, this`used, isIndex
      ensures Counters() && used == old(used) + {vector}
      ensures isIndex[..] == old(isIndex[..])[vector := old(intrcntIndex)]
      ensures intrcntIndex == old(intrcntIndex) + 2 <= nintrcnt
    {
      LedgerPair(numIoIrqs, Allowance(), nintrcnt, intrcntIndex, used, isIndex[..], added, owner, vector);
      assert intrcntIndex + 2 <= nintrcnt;
      owner := owner + [Count(vector), Stray(vector)];
      used := used + {vector};
      TakePair(vector);
    }

    /** intr_register_source; createError is what intr_event_create returned. */
    method RegisterSource(vector: nat, createError: int) returns (error: int)
      requires Valid() && vector < numIoIrqs
      modifies this`intrcntIndex, this`owner, this`used, sources, isIndex
      ensures Valid()
      ensures error == if vector in old(used) then EEXIST else createError
      ensures error != 0 ==> used == old(used) && intrcntIndex == old(intrcntIndex) && isIndex[..] == old(isIndex[..])
      ensures error == 0 ==> used == old(used) + {vector} && isIndex[..] == old(isIndex[..])[vector := old(intrcntIndex)]
    {
      if sources[vector] {
        return EEXIST;
      }
      if createError != 0 {
        return createError;
      }
      IntrcntRegister(vector);
      sources[vector] := true;
      error := 0;
    }

    /** intrcnt_add; the slot handed out stands for the counter's address. */
    method IntrcntAdd() returns (slot: nat)
      requires Valid() && |added| < Allowance()
      modifies this`intrcntIndex, this`owner, this`added
      ensures Valid() && added == old(added) + [slot]
      ensures slot == old(intrcntIndex) < nintrcnt
    {
      LedgerSingle(numIoIrqs, Allowance(), nintrcnt, intrcntIndex, used, isIndex[..], added, owner);
      assert intrcntIndex < nintrcnt;
      slot := intrcntIndex;
      owner := owner + [Extra(|added|)];
      added := added + [slot];
      intrcntIndex := intrcntIndex + 1;
    }

    /** No two counters share a slot and every slot is in range. */
    lemma SlotsDisjoint(v: nat, w: nat, j: nat, k: nat)
      requires Valid() && v in used && w in used && j < |added| && k < |added|
      ensures 0 < isIndex[v] && isIndex[v] + 1 < nintrcnt && 0 < added[j] < nintrcnt
      ensures v != w ==> isIndex[v] + 2 <= isIndex[w] || isIndex[w] + 2 <= isIndex[v]
      ensures added[k] < isIndex[v] || isIndex[v] + 2 <= added[k]
      ensures j != k ==> added[j] != added[k]
    {
      AtMost(used, numIoIrqs);
      assert isIndex[v] == isIndex[..][v] && isIndex[w] == isIndex[..][w];
      assert Owns(owner, isIndex[v], Count(v)) && Owns(owner, isIndex[v] + 1, Stray(v));
      assert Owns(owner, isIndex[w], Count(w)) && Owns(owner, isIndex[w] + 1, Stray(w));
      assert Owns(owner, added[j], Extra(j)) && Owns(owner, added[k], Extra(k));
    }

    /** The bound on added counters is exact: with every vector registered there
        is room for one more counter precisely while the allowance lasts. */
    lemma CapacityIsExact()
      requires Valid() && |used| == numIoIrqs
      ensures intrcntIndex < nintrcnt <==> |added| < Allowance()
    {
    }
  }
}
