/** The static kernel environment: NUL-terminated "name=value" strings one after
    the other, ended by an empty one, and the search for a name in it. */
module KernEnv {
  import opened Common
  import opened NumberText
  import opened EnvArray

  /** The strings of a block hold no NUL, and only the first may be empty. */
  ghost predicate Entries(es: seq<string>) {
    && es != []
    && (forall i | 0 <= i < |es| :: NUL !in es[i])
    && (forall i | 0 < i < |es| :: es[i] != [])
  }

  /** The bytes of a block. */
  function Block(es: seq<string>): string {
    if es == [] then [NUL] else es[0] + [NUL] + Block(es[1..])
  }

  /** Where entry k starts. */
  function Offset(es: seq<string>, k: nat): (o: nat)
    requires k <= |es|
  {
    if k == 0 then 0 else |es[0]| + 1 + Offset(es[1..], k - 1)
  }

  lemma {:induction false} BlockAt(es: seq<string>, k: nat)
    requires k < |es|
    ensures Offset(es, k + 1) == Offset(es, k) + |es[k]| + 1 < |Block(es)|
    ensures Block(es)[Offset(es, k)..Offset(es, k) + |es[k]|] == es[k]
    ensures Block(es)[Offset(es, k) + |es[k]|] == NUL
  {
    var rest := Block(es[1..]);
    assert |rest| > 0;
    if k > 0 {
      BlockAt(es[1..], k - 1);
      var o := Offset(es[1..], k - 1);
      assert Block(es)[|es[0]| + 1..] == rest;
      assert Block(es)[Offset(es, k)..Offset(es, k) + |es[k]|] == rest[o..o + |es[k]|];
    }
  }

  /** The NUL-terminated string at an address. */
  ghost predicate StringAt(env: string, cp: nat, v: string) {
    cp + |v| < |env| && NUL !in v && env[cp..cp + |v|] == v && env[cp + |v|] == NUL
  }

  lemma EntryAt(env: string, es: seq<string>, k: nat)
    requires Entries(es) && k < |es| && Block(es) <= env
    ensures StringAt(env, Offset(es, k), es[k])
  {
    BlockAt(es, k);
  }

  lemma CharAt(env: string, cp: nat, v: string, i: nat)
    requires StringAt(env, cp, v) && i <= |v|
    ensures env[cp + i] == if i < |v| then v[i] else NUL
  {
    if i < |v| { assert env[cp..cp + |v|][i] == env[cp + i]; }
  }

  lemma TailAt(env: string, cp: nat, v: string, q: nat, ep: nat)
    requires StringAt(env, cp, v) && q <= |v| && ep == cp + q
    ensures StringAt(env, ep, v[q..]) && env[cp..ep] == v[..q]
  {
    assert env[ep..cp + |v|] == env[cp..cp + |v|][q..];
    assert env[cp..ep] == env[cp..cp + |v|][..q];
  }

  lemma {:induction false} BlockEnds(es: seq<string>)
    ensures Offset(es, |es|) == |Block(es)| - 1 && Block(es)[|Block(es)| - 1] == NUL
  {
    if es != [] {
      BlockEnds(es[1..]);
    }
  }

  /** The first '=' of an entry; its length when there is none. */
  function Equals(e: string): (k: nat)
    ensures k <= |e| && (k < |e| ==> e[k] == '=')
    ensures forall i | 0 <= i < k :: e[i] != '='
  {
    if e == [] || e[0] == '=' then 0 else 1 + Equals(e[1..])
  }

  predicate Names(e: string, name: string) {
    Equals(e) < |e| && e[..Equals(e)] == name
  }

  lemma {:induction false} EqualsAt(name: string, v: string)
    requires '=' !in name
    ensures var e := name + "=" + v;
            Equals(e) == |name| && e[..|name|] == name && e[|name| + 1..] == v
  {
    var e := name + "=" + v;
    if name == [] {
      assert e[0] == '=';
    } else {
      EqualsAt(name[1..], v);
      assert e[1..] == name[1..] + "=" + v;
    }
  }

  /** An entry is for exactly this name, no shorter and no longer one, if the
      name and then an '=' are in front; a name with an '=' in it has none. */
  lemma NamesExact(e: string, name: string)
    ensures Names(e, name) <==> '=' !in name && name + "=" <= e
  {
    if Names(e, name) {
      assert e[..|name| + 1] == name + "=";
    }
    if '=' !in name && name + "=" <= e {
      assert e == name + "=" + e[|name| + 1..];
      EqualsAt(name, e[|name| + 1..]);
    }
  }

  /** The value of the first entry with this name. */
  function Lookup(es: seq<string>, name: string): Option<string> {
    if es == [] then None
    else if Names(es[0], name) then Some(es[0][Equals(es[0]) + 1..])
    else Lookup(es[1..], name)
  }

  lemma {:induction false} LookupSkips(es: seq<string>, name: string, k: nat)
    requires k <= |es| && forall i | 0 <= i < k :: !Names(es[i], name)
    ensures Lookup(es, name) == Lookup(es[k..], name)
  {
    if k > 0 {
      LookupSkips(es[1..], name, k - 1);
      assert es[1..][k - 1..] == es[k..];
    } else {
      assert es[0..] == es;
    }
  }

  /** Lookup gives what stands behind name and '=' in the first entry that
      begins with them, and nothing if there is no such entry. */
  lemma {:induction false} LookupExact(es: seq<string>, name: string)
    requires '=' !in name
    ensures Lookup(es, name).None? <==> forall i | 0 <= i < |es| :: !(name + "=" <= es[i])
    ensures forall k | 0 <= k < |es| && name + "=" <= es[k] && (forall i | 0 <= i < k :: !(name + "=" <= es[i])) ::
              Lookup(es, name) == Some(es[k][|name| + 1..])
  {
    if es != [] {
      NamesExact(es[0], name);
      LookupExact(es[1..], name);
    }
  }

  lemma {:induction false} LookupNever(es: seq<string>, name: string)
    requires '=' in name
    ensures Lookup(es, name) == None
  {
    if es != [] {
      NamesExact(es[0], name);
      LookupNever(es[1..], name);
    }
  }

  lemma LookupFinds(es: seq<string>, name: string, k: nat)
    requires k < |es| && Names(es[k], name) && forall i | 0 <= i < k :: !Names(es[i], name)
    ensures Lookup(es, name) == Some(es[k][Equals(es[k]) + 1..])
  {
    LookupSkips(es, name, k);
    assert es[k..][0] == es[k];
  }

  /** Behind an entry comes the next one, or the NUL that ends the block. */
  lemma AfterEntry(env: string, es: seq<string>, k: nat)
    requires Entries(es) && k < |es| && Block(es) <= env
    ensures Offset(es, k + 1) == Offset(es, k) + |es[k]| + 1 < |env|
    ensures env[Offset(es, k + 1)] == NUL <==> k + 1 == |es|
  {
    BlockAt(es, k);
    if k + 1 < |es| {
      EntryAt(env, es, k + 1);
      CharAt(env, Offset(es, k + 1), es[k + 1], 0);
    } else {
      BlockEnds(es);
    }
  }

  /** kernenv_next: the address behind the string e at cp, unless the block ends there. */
  method KernenvNext(env: string, cp: nat, ghost e: string) returns (next: Option<nat>)
    requires StringAt(env, cp, e) && cp + |e| + 1 < |env|
    ensures next == if env[cp + |e| + 1] == NUL then None else Some(cp + |e| + 1)
  {
    var p := cp;
    CharAt(env, cp, e, 0);
    while env[p] != NUL
      invariant cp <= p <= cp + |e|
      invariant env[p] == if p < cp + |e| then e[p - cp] else NUL
      decreases cp + |e| - p
    {
      p := p + 1;
      CharAt(env, cp, e, p - cp);
    }
    p := p + 1;
    next := if env[p] == NUL then None else Some(p);
  }

  /** The inner scan of _getenv_static_from: the first '=' or NUL of the string e at cp. */
  method FindEquals(env: string, cp: nat, ghost e: string) returns (ep: nat)
    requires StringAt(env, cp, e)
    ensures ep == cp + Equals(e) < |env|
    ensures env[ep] == '=' <==> Equals(e) < |e|
  {
    ep := cp;
    CharAt(env, cp, e, 0);
    while env[ep] != '=' && env[ep] != NUL
      invariant cp <= ep <= cp + Equals(e)
      invariant env[ep] == if ep < cp + |e| then e[ep - cp] else NUL
      decreases cp + Equals(e) - ep
    {
      ep := ep + 1;
      CharAt(env, cp, e, ep - cp);
    }
  }

  /** The string e at cp, if it is an entry for the name: where its value starts. */
  method MatchEntry(env: string, cp: nat, name: string, ghost e: string) returns (r: Option<nat>)
    requires StringAt(env, cp, e)
    ensures r.Some? <==> Names(e, name)
    ensures r.Some? ==> StringAt(env, r.value, e[Equals(e) + 1..])
  {
    var ep := FindEquals(env, cp, e);
    TailAt(env, cp, e, Equals(e), ep);
    if env[ep] == '=' && env[cp..ep] == name {
      TailAt(env, cp, e, Equals(e) + 1, ep + 1);
      return Some(ep + 1);
    }
    r := None;
  }

  /** A block, or no block at all. */
  ghost predicate Holds(env: Option<string>, es: seq<string>) {
    if env.None? then es == [] else Entries(es) && Block(es) <= env.value
  }

  /** _getenv_static_from: the address of the value of the first entry with the
      name, if there is one. */
  method GetenvStaticFrom(chkenv: Option<string>, name: string, ghost es: seq<string>) returns (r: Option<nat>)
    requires Holds(chkenv, es)
    ensures r.Some? <==> Lookup(es, name).Some?
    ensures r.Some? <==> '=' !in name && exists i | 0 <= i < |es| :: name + "=" <= es[i]
    ensures r.Some? ==> StringAt(chkenv.value, r.value, Lookup(es, name).value)
  {
    var cp: Option<nat> := if chkenv.None? then None else Some(0);
    ghost var k := 0;
    while cp.Some?
      invariant k <= |es| && (cp.Some? <==> k < |es|)
      invariant cp.Some? ==> chkenv.Some? && cp.value == Offset(es, k)
      invariant forall i | 0 <= i < k :: !Names(es[i], name) && !('=' !in name && name + "=" <= es[i])
      decreases |es| - k
    {
      var env := chkenv.value;
      EntryAt(env, es, k);
      AfterEntry(env, es, k);
      r := MatchEntry(env, cp.value, name, es[k]);
      NamesExact(es[k], name);
      if r.Some? {
        LookupFinds(es, name, k);
        return;
      }
      cp := KernenvNext(env, cp.value, es[k]);
      k := k + 1;
    }
    LookupSkips(es, name, k);
    assert es[k..] == [];
    r := None;
  }

  /** _getenv_static: the machine-dependent block first, then the configured one. */
  method GetenvStatic(mdEnvp: Option<string>, kernEnvp: Option<string>, name: string,
                      ghost mdEs: seq<string>, ghost kernEs: seq<string>)
    returns (inMd: bool, r: Option<nat>)
    requires Holds(mdEnvp, mdEs) && Holds(kernEnvp, kernEs)
    ensures inMd <==> Lookup(mdEs, name).Some?
    ensures r.Some? <==> Lookup(mdEs, name).Some? || Lookup(kernEs, name).Some?
    ensures inMd ==> StringAt(mdEnvp.value, r.value, Lookup(mdEs, name).value)
    ensures !inMd && r.Some? ==> StringAt(kernEnvp.value, r.value, Lookup(kernEs, name).value)
  {
    r := GetenvStaticFrom(mdEnvp, name, mdEs);
    if r.Some? {
      return true, r;
    }
    inMd := false;
    r := GetenvStaticFrom(kernEnvp, name, kernEs);
  }

  /** A list of values printed into an entry of the block is what getenv_array
      gets when it asks for that name. */
  lemma PrintedEntryRoundTrip(es: seq<string>, k: nat, name: string, vs: seq<nat>,
                              capacity: nat, typeSize: nat, allowSigned: bool)
    requires vs != [] && k < |es| && es[k] == name + "=" + ListText(vs) && '=' !in name
    requires forall i | 0 <= i < k :: !(name + "=" <= es[i])
    requires |vs| <= capacity
    requires forall i | 0 <= i < |vs| :: vs[i] <= QUAD_MAX && InType(vs[i], typeSize, allowSigned)
    ensures Lookup(es, name).Some?
    ensures Elements(Lookup(es, name).value, capacity, typeSize, allowSigned) == Some(vs)
  {
    LookupExact(es, name);
    assert es[k][|name| + 1..] == ListText(vs);
    ListRoundTrip(vs, capacity, typeSize, allowSigned);
  }
}
