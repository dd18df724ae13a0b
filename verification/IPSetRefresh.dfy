/** Replacing the members of a live set by filling a second set and swapping the two
    (pkg/daemon/ipset/ipset.go: Create, Add, BatchAdd, Swap, Destroy, RefreshWithBuiltinOptions). */
module IPSetRefresh {
  import opened Wrappers
  import opened IPSetKernel
  import opened IPSetRestore

  /** The kernel, with a record of its state after every command. */
  class KernelSets {
    var sets: Kernel
    ghost var states: seq<Kernel>

    constructor (sets: Kernel)
      ensures this.sets == sets && states == []
    {
      this.sets := sets;
      states := [];
    }

    /** One run of the ipset tool; besides the failures of Exec it can fail for reasons of its own. */
    method Execute(c: Command) returns (ok: bool)
      modifies this
      ensures ok ==> Exec(old(sets), c) == Ok(sets)
      ensures !ok ==> sets == old(sets)
      ensures states == old(states) + [sets]
    {
      var r := Exec(sets, c);
      var broken: bool := *;
      ok := r.Ok? && !broken;
      if ok {
        sets := r.value;
      }
      states := states + [sets];
    }

    /** `IsActive`: ask whether the set exists, unless the query itself fails. */
    method List(name: string) returns (r: Result<bool>)
      ensures r.Ok? ==> (r.value <==> name in sets)
    {
      var broken: bool := *;
      r := if broken then Err else Ok(name in sets);
    }
  }

  /** A set object of the program, registered or not. */
  class Set {
    const name: string
    const options: string
    var entries: seq<string>

    constructor (name: string, options: string)
      ensures this.name == name && this.options == options && entries == []
    {
      this.name, this.options, entries := name, options, [];
    }
  }

  /** The states differ at most in set `t`. */
  ghost predicate SameExcept(k: Kernel, k': Kernel, t: string)
  {
    forall n :: n != t ==> (n in k' <==> n in k) && (n in k ==> k'[n] == k[n])
  }

  /** Since the record had length `from`, at most set `t` was touched. */
  ghost predicate OnlyTouched(k: Kernel, states: seq<Kernel>, from: nat, t: string)
  {
    forall i :: from <= i < |states| ==> SameExcept(k, states[i], t)
  }

  /** The record only grows. */
  ghost predicate Extends(states: seq<Kernel>, older: seq<Kernel>)
  {
    |older| <= |states| && states[..|older|] == older
  }

  class IPSet {
    const isIPv6: bool
    const kernel: KernelSets
    var sets: Sets

    constructor (isIPv6: bool, kernel: KernelSets)
      ensures this.isIPv6 == isIPv6 && this.kernel == kernel && sets == map[]
    {
      this.isIPv6, this.kernel := isIPv6, kernel;
      sets := map[];
    }

    function KernelName(name: string): string
    {
      if isIPv6 then "inet6:" + name else name
    }

    function KernelOptions(options: string): string
    {
      if isIPv6 then options + " family inet6" else options
    }

    lemma {:induction false} NamesDiffer(a: string, b: string)
      ensures KernelName(a) == KernelName(b) ==> a == b
    {
      if isIPv6 && KernelName(a) == KernelName(b) {
        assert a == KernelName(a)[6..] && b == KernelName(b)[6..];
      }
    }

    /** Register the set and create it in the kernel unless it is there. */
    method Create(name: string, options: string) returns (ok: bool)
      modifies this, kernel
      ensures sets == if name in old(sets) then old(sets) else old(sets)[name := SetDef(options, [])]
      ensures Extends(kernel.states, old(kernel.states))
      ensures OnlyTouched(old(kernel.sets), kernel.states, |old(kernel.states)|, KernelName(name))
      ensures var family := if isIPv6 then options + " family inet6" else options;
              ok ==> kernel.sets == if KernelName(name) in old(kernel.sets) then old(kernel.sets)
                                    else old(kernel.sets)[KernelName(name) := KernelSet(family, {})]
      ensures !ok ==> kernel.sets == old(kernel.sets)
    {
      if name !in sets {
        sets := sets[name := SetDef(options, [])];
      }
      var active := kernel.List(KernelName(name));
      if active.Err? {
        return false;
      }
      if active.value {
        return true;
      }
      ok := kernel.Execute(IPSetKernel.Create(KernelName(name), KernelOptions(options)));
    }

    /** Append the entries to the set object, whatever happens, and add them to the kernel set one by one. */
    method BatchAdd(target: Set, entries: seq<string>) returns (ok: bool)
      modifies target, kernel
      ensures target.entries == old(target.entries) + entries
      ensures Extends(kernel.states, old(kernel.states))
      ensures OnlyTouched(old(kernel.sets), kernel.states, |old(kernel.states)|, KernelName(target.name))
      ensures SameExcept(old(kernel.sets), kernel.sets, KernelName(target.name))
      ensures ok && KernelName(target.name) in old(kernel.sets) ==>
                kernel.sets == With(old(kernel.sets), KernelName(target.name),
                                    Extended(old(kernel.sets)[KernelName(target.name)], entries))
    {
      target.entries := target.entries + entries;
      ok := AddToKernel(KernelName(target.name), entries);
    }

    /** One restore script; it can fail to start, and stops at the first command that fails. */
    method AddToKernel(t: string, entries: seq<string>) returns (ok: bool)
      modifies kernel
      ensures Extends(kernel.states, old(kernel.states))
      ensures OnlyTouched(old(kernel.sets), kernel.states, |old(kernel.states)|, t)
      ensures SameExcept(old(kernel.sets), kernel.sets, t)
      ensures ok && t in old(kernel.sets) ==>
              kernel.sets == With(old(kernel.sets), t, Extended(old(kernel.sets)[t], entries))
    {
      ghost var k, was := kernel.sets, kernel.states;
      var broken: bool := *;
      if broken {
        return false;
      }
      if t in k { ExtendedByNothing(k, t); }
      for i := 0 to |entries|
        invariant Extends(kernel.states, was)
        invariant OnlyTouched(k, kernel.states, |was|, t) && SameExcept(k, kernel.sets, t)
        invariant t in k ==> kernel.sets == With(k, t, Extended(k[t], entries[..i]))
      {
        ok := kernel.Execute(Add(t, entries[i]));
        if !ok {
          return false;
        }
        if t in k { ExtendedStep(k, t, entries, i); }
      }
      assert entries[..|entries|] == entries;
      return true;
    }

    method Destroy(name: string) returns (ok: bool)
      modifies this, kernel
      ensures Extends(kernel.states, old(kernel.states))
      ensures OnlyTouched(old(kernel.sets), kernel.states, |old(kernel.states)|, KernelName(name))
      ensures !ok ==> sets == old(sets) && kernel.sets == old(kernel.sets)
      ensures ok ==> sets == old(sets) - {name}
      ensures ok ==>
              kernel.sets == if name in old(sets) then old(kernel.sets) - {KernelName(name)} else old(kernel.sets)
    {
      if name !in sets {
        return true;
      }
      ok := kernel.Execute(IPSetKernel.Destroy(KernelName(name)));
      if ok {
        sets := sets - {name};
      }
    }

    /** `Add` an empty set, that is, create it if it is missing, and add the entries to it. */
    method Fill(newSet: Set, entries: seq<string>) returns (ok: bool)
      modifies this, kernel, newSet
      ensures sets == if newSet.name in old(sets) then old(sets)
        else old(sets)[newSet.name := SetDef(newSet.options, [])]
      ensures Extends(kernel.states, old(kernel.states))
      ensures OnlyTouched(old(kernel.sets), kernel.states, |old(kernel.states)|, KernelName(newSet.name))
      ensures ok ==> kernel.sets == With(old(kernel.sets), KernelName(newSet.name),
                                         Filled(old(kernel.sets), KernelName(newSet.name),
                                                KernelOptions(newSet.options), entries))
    {
      ok := Create(newSet.name, newSet.options);
      if !ok {
        return false;
      }
      ok := BatchAdd(newSet, entries);
    }

    /** At every command boundary the live set is the old one or the refreshed one, whatever fails; on success it is
        the refreshed one, the temporary set is gone from the kernel and from the registered sets, and no other set
        has changed.  With the temporary name unused at the start, the refreshed members are exactly the new
        entries. */
    method RefreshWithBuiltinOptions(name: string, entries: seq<string>) returns (ok: bool)
      requires name in sets
      modifies this, kernel
      ensures Extends(kernel.states, old(kernel.states))
      ensures KernelName(name) in old(kernel.sets) ==>
                OldOrRefreshed(old(kernel.sets), kernel.states, |old(kernel.states)|, KernelName(name),
                               Refreshed(old(kernel.sets), KernelName(name), KernelName(name + "-"), entries))
      ensures ok ==> KernelName(name) in old(kernel.sets) &&
                     RefreshDone(old(kernel.sets), kernel.sets, KernelName(name), KernelName(name + "-"),
                                 Refreshed(old(kernel.sets), KernelName(name), KernelName(name + "-"), entries))
      ensures ok ==> sets == old(sets) - {name + "-"}
    {
      var tempName, options := name + "-", sets[name].options;
      NamesDiffer(name, tempName);
      var live, temp := KernelName(name), KernelName(tempName);
      ghost var k0, was := kernel.sets, kernel.states;
      var newSet := new Set(tempName, options);
      ok := Fill(newSet, entries);
      if !ok {
        return false;
      }
      ok := kernel.Execute(Swap(live, temp));
      if !ok {
        return false;
      }
      ok := Destroy(tempName);
    }
  }

  /** The sets of the two families have different kernel names, except where an IPv4 set is named like the kernel name
      of an IPv6 one. */
  lemma {:induction false} SharedNameIff(v4: IPSet, v6: IPSet, a: string, b: string)
    requires !v4.isIPv6 && v6.isIPv6
    ensures v4.KernelName(a) == v6.KernelName(b) <==> a == "inet6:" + b
  {}

  /** The set, created with the options if it is missing, with the entries added. */
  function Filled(k: Kernel, t: string, options: string, entries: seq<string>): KernelSet
  {
    Extended(if t in k then k[t] else KernelSet(options, {}), entries)
  }

  /** What the live set ends up with: the new entries and whatever a temporary set left over in the kernel held. */
  ghost function Refreshed(k: Kernel, live: string, temp: string, entries: seq<string>): KernelSet
    requires live in k
  {
    Filled(k, temp, k[live].options, entries)
  }

  /** The refresh is exact if and only if no leftover temporary set holds anything but new entries; in particular
      whenever the temporary name was unused. */
  lemma {:induction false} RefreshExactIff(k: Kernel, live: string, temp: string, entries: seq<string>)
    requires live in k
    ensures Refreshed(k, live, temp, entries).members == (set e | e in entries) <==>
            (temp in k ==> k[temp].members <= set e | e in entries)
  {
    var wanted := set e | e in entries;
    if temp in k && Refreshed(k, live, temp, entries).members == wanted {
      assert k[temp].members <= k[temp].members + wanted;
    }
  }

  /** A leftover temporary set holding "a" turns a refresh with "b" into "a" and "b". */
  lemma {:induction false} RefreshKeepsLeftover(options: string)
    ensures var k: Kernel := map["s" := KernelSet(options, {}), "s-" := KernelSet(options, {"a"})];
            Refreshed(k, "s", "s-", ["b"]).members == {"a", "b"}
  {
    assert (set e | e in ["b"]) == {"b"};
  }

  ghost predicate OldOrRefreshed(k: Kernel, states: seq<Kernel>, from: nat, live: string, refreshed: KernelSet)
    requires live in k
  {
    forall i :: from <= i < |states| ==>
                  live in states[i] && (states[i][live] == k[live] || states[i][live] == refreshed)
  }

  ghost predicate RefreshDone(k: Kernel, k': Kernel, live: string, temp: string, refreshed: KernelSet)
  {
    && k'.Keys == k.Keys - {temp}
    && live in k' && k'[live] == refreshed
    && forall n :: n in k' && n != live ==> k'[n] == k[n]
  }

  function Extended(ks: KernelSet, entries: seq<string>): KernelSet
  {
    ks.(members := ks.members + set e | e in entries)
  }

  lemma {:induction false} ExtendedByNothing(k: Kernel, t: string)
    requires t in k
    ensures With(k, t, Extended(k[t], [])) == k
  {
    assert Extended(k[t], []).members == k[t].members;
  }

  lemma {:induction false} ExtendedStep(k: Kernel, t: string, entries: seq<string>, i: nat)
    requires t in k && i < |entries|
    ensures Exec(With(k, t, Extended(k[t], entries[..i])), Add(t, entries[i])) ==
            Ok(With(k, t, Extended(k[t], entries[..i + 1])))
  {
    var mid := With(k, t, Extended(k[t], entries[..i]));
    assert entries[..i + 1] == entries[..i] + [entries[i]];
    assert mid[t].members + {entries[i]} == Extended(k[t], entries[..i + 1]).members;
    assert mid[t := Extended(k[t], entries[..i + 1])] == With(k, t, Extended(k[t], entries[..i + 1]));
  }
}
