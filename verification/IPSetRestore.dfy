/** The restore script of pkg/daemon/ipset/ipset.go (buildIPSetRestore): what executing it does to the kernel. */
module IPSetRestore {
  import opened Wrappers
  import opened IPSetKernel

  /** A set as the program wants it. */
  datatype SetDef = SetDef(options: string, entries: seq<string>)

  type Sets = map<string, SetDef>

  function Wanted(d: SetDef): KernelSet
  {
    KernelSet(d.options, set e | e in d.entries)
  }

  /** The creation options in use. */
  ghost function AllOptions(sets: Sets): set<string>
  {
    set n | n in sets :: sets[n].options
  }

  function TmpNames(opts: set<string>, tmp: string -> string): set<string>
  {
    set o | o in opts :: tmp(o)
  }

  /** The temporary names are distinct per options in use and are not managed names; sets of managed or temporary names,
      if there already are any, have the matching options. */
  ghost predicate Fitting(k: Kernel, sets: Sets, tmp: string -> string)
  {
    && (forall o, o' :: o in AllOptions(sets) && o' in AllOptions(sets) && tmp(o) == tmp(o') ==> o == o')
    && (forall o :: o in AllOptions(sets) ==> tmp(o) !in sets)
    && (forall n :: n in sets && n in k ==> k[n].options == sets[n].options)
    && (forall o :: o in AllOptions(sets) && tmp(o) in k ==> k[tmp(o)].options == o)
  }

  function AddAll(name: string, entries: seq<string>): seq<Command>
  {
    if entries == [] then [] else AddAll(name, entries[..|entries| - 1]) + [Add(name, entries[|entries| - 1])]
  }

  /** The commands for one set; `t` is the temporary set of its options. */
  function OneSet(t: string, name: string, d: SetDef): seq<Command>
  {
    AddAll(t, d.entries) + [Create(name, d.options), Swap(t, name), Flush(t)]
  }

  function NewTmp(t: string, options: string): seq<Command>
  {
    [Create(t, options), Flush(t)]
  }

  // ---- One set ----

  /** Every managed set that existed at the start holds its old members or its wanted ones. */
  ghost predicate OldOrWanted(k0: Kernel, sets: Sets, k: Kernel)
  {
    forall n :: n in sets && n in k0 ==> n in k && (k[n] == k0[n] || k[n] == Wanted(sets[n]))
  }

  /** `done` sets are finished; the temporary sets of `opts` are empty; nothing else has changed. */
  ghost predicate Progress(k0: Kernel, k: Kernel, sets: Sets, tmp: string -> string, done: set<string>,
                           opts: set<string>)
  {
    && done <= sets.Keys && opts <= AllOptions(sets)
    && k.Keys == k0.Keys + done + TmpNames(opts, tmp)
    && (forall n :: n in done ==> k[n] == Wanted(sets[n]))
    && (forall o :: o in opts ==> k[tmp(o)] == KernelSet(o, {}))
    && (forall n :: n in k0 && n !in done && n !in TmpNames(opts, tmp) ==> k[n] == k0[n])
  }

  lemma {:induction false} ProgressSafe(k0: Kernel, k: Kernel, sets: Sets, tmp: string -> string, done: set<string>,
                                        opts: set<string>)
    requires Fitting(k0, sets, tmp) && Progress(k0, k, sets, tmp, done, opts)
    ensures OldOrWanted(k0, sets, k)
  {
    forall n | n in sets ensures n !in TmpNames(opts, tmp) {}
  }

  function With(k: Kernel, t: string, ks: KernelSet): Kernel
  {
    k[t := ks]
  }

  /** Filling a set that is not managed goes through harmless states only. */
  lemma {:induction false} AddAllRuns(k: Kernel, t: string, entries: seq<string>, p: Kernel -> bool)
    requires t in k && forall ks :: p(With(k, t, ks))
    ensures Throughout(k, AddAll(t, entries), p)
    ensures Run(k, AddAll(t, entries)) == Ok(k[t := k[t].(members := k[t].members + set e | e in entries)])
    decreases |entries|
  {
    assert With(k, t, k[t]) == k;
    if entries == [] {
      assert k[t].members + (set e | e in entries) == k[t].members;
    } else {
      var init, e := entries[..|entries| - 1], entries[|entries| - 1];
      AddAllRuns(k, t, init, p);
      var mid := Run(k, AddAll(t, init)).value;
      var added := KernelSet(k[t].options, k[t].members + (set x | x in init) + {e});
      assert entries == init + [e];
      assert k[t].members + (set x | x in init) + {e} == k[t].members + (set x | x in entries);
      assert mid[t := added] == With(k, t, added);
      assert mid == With(k, t, mid[t]);
      OneCommand(mid, Add(t, e), p);
      ThroughoutConcat(k, AddAll(t, init), [Add(t, e)], p);
      RunConcat(k, AddAll(t, init), [Add(t, e)]);
    }
  }

  lemma {:induction false} OneCommand(k: Kernel, c: Command, p: Kernel -> bool)
    requires p(k) && Exec(k, c).Ok? && p(Exec(k, c).value)
    ensures Throughout(k, [c], p) && Run(k, [c]) == Exec(k, c)
  {
    assert [c][1..] == [];
  }

  ghost function Safe(k0: Kernel, sets: Sets): Kernel -> bool
  {
    (k: Kernel) => OldOrWanted(k0, sets, k)
  }

  /** Creating, or emptying, the temporary set for options seen for the first time. */
  lemma {:induction false} NewTmpStep(k0: Kernel, k: Kernel, sets: Sets, tmp: string -> string, done: set<string>,
                                      opts: set<string>, o: string)
    requires Fitting(k0, sets, tmp) && Progress(k0, k, sets, tmp, done, opts) && o in AllOptions(sets) && o !in opts
    ensures Throughout(k, NewTmp(tmp(o), o), Safe(k0, sets))
    ensures Run(k, NewTmp(tmp(o), o)).Ok?
    ensures Progress(k0, Run(k, NewTmp(tmp(o), o)).value, sets, tmp, done, opts + {o})
  {
    var t := tmp(o);
    TmpAdded(k0, k, sets, tmp, done, opts, o);
    ProgressSafe(k0, k, sets, tmp, done, opts);
    var k1 := Exec(k, Create(t, o)).value;
    assert k1[t := k1[t].(members := {})] == With(k, t, KernelSet(o, {}));
    OneCommand(k, Create(t, o), Safe(k0, sets));
    OneCommand(k1, Flush(t), Safe(k0, sets));
    assert NewTmp(t, o) == [Create(t, o)] + [Flush(t)];
    RunConcat(k, [Create(t, o)], [Flush(t)]);
    ThroughoutConcat(k, [Create(t, o)], [Flush(t)], Safe(k0, sets));
  }

  lemma {:induction false} TmpAdded(k0: Kernel, k: Kernel, sets: Sets, tmp: string -> string, done: set<string>,
                                    opts: set<string>, o: string)
    requires Fitting(k0, sets, tmp) && Progress(k0, k, sets, tmp, done, opts) && o in AllOptions(sets) && o !in opts
    ensures tmp(o) !in sets && (tmp(o) in k ==> k[tmp(o)].options == o)
    ensures Progress(k0, With(k, tmp(o), KernelSet(o, {})), sets, tmp, done, opts + {o})
  {
    var t := tmp(o);
    assert t !in TmpNames(opts, tmp) && t !in sets;
    assert TmpNames(opts + {o}, tmp) == TmpNames(opts, tmp) + {t};
  }

  /** The commands for one set put exactly its entries in place, through safe states only. */
  lemma {:induction false} OneSetStep(k0: Kernel, k: Kernel, sets: Sets, tmp: string -> string, done: set<string>,
                                      opts: set<string>, name: string)
    requires Fitting(k0, sets, tmp) && Progress(k0, k, sets, tmp, done, opts)
    requires name in sets && name !in done && sets[name].options in opts
    ensures var cs := OneSet(tmp(sets[name].options), name, sets[name]);
            && Throughout(k, cs, Safe(k0, sets)) && Run(k, cs).Ok?
            && Progress(k0, Run(k, cs).value, sets, tmp, done + {name}, opts)
  {
    var d := sets[name];
    var o := d.options;
    var t := tmp(o);
    var p := Safe(k0, sets);
    ProgressSafe(k0, k, sets, tmp, done, opts);
    assert t in TmpNames(opts, tmp) && t !in sets;
    assert name !in TmpNames(opts, tmp);
    forall ks ensures p(With(k, t, ks)) {}
    AddAllRuns(k, t, d.entries, p);
    var k1 := Run(k, AddAll(t, d.entries)).value;
    assert k[t] == KernelSet(o, {}) && {} + (set e | e in d.entries) == (set e | e in d.entries);
    assert k1 == With(k, t, Wanted(d));
    SwapIn(k0, k, k1, sets, tmp, done, opts, name);
    var rest := [Create(name, o), Swap(t, name), Flush(t)];
    RunConcat(k, AddAll(t, d.entries), rest);
    ThroughoutConcat(k, AddAll(t, d.entries), rest, p);
  }

  /** Create if missing, swap, flush: the states in between. */
  lemma {:induction false} SwapStates(k1: Kernel, t: string, name: string, d: SetDef)
    requires t != name && t in k1 && k1[t] == Wanted(d) && (name in k1 ==> k1[name].options == d.options)
    ensures var r2 := Exec(k1, Create(name, d.options));
            && r2.Ok? && r2.value == (if name in k1 then k1 else With(k1, name, KernelSet(d.options, {})))
            && var r3 := Exec(r2.value, Swap(t, name));
            && r3.Ok? && r3.value == With(With(k1, name, Wanted(d)), t, r2.value[name])
            && Exec(r3.value, Flush(t)) == Ok(With(With(k1, name, Wanted(d)), t, KernelSet(d.options, {})))
  {
    var k2 := Exec(k1, Create(name, d.options)).value;
    var k3 := Exec(k2, Swap(t, name)).value;
    assert k3 == With(With(k1, name, Wanted(d)), t, k2[name]);
    assert k3[t := k3[t].(members := {})] == With(With(k1, name, Wanted(d)), t, KernelSet(d.options, {}));
  }

  lemma {:induction false} ThreeCommands(k: Kernel, c1: Command, c2: Command, c3: Command, p: Kernel -> bool)
    requires p(k) && Exec(k, c1).Ok? && p(Exec(k, c1).value)
    requires Exec(Exec(k, c1).value, c2).Ok? && p(Exec(Exec(k, c1).value, c2).value)
    requires Exec(Exec(Exec(k, c1).value, c2).value, c3).Ok? && p(Exec(Exec(Exec(k, c1).value, c2).value, c3).value)
    ensures Throughout(k, [c1, c2, c3], p)
    ensures Run(k, [c1, c2, c3]) == Exec(Exec(Exec(k, c1).value, c2).value, c3)
  {
    var k1 := Exec(k, c1).value;
    OneCommand(Exec(k1, c2).value, c3, p);
    assert [c1, c2, c3][1..] == [c2, c3] && [c2, c3][1..] == [c3];
    assert Throughout(k1, [c2, c3], p) && Run(k1, [c2, c3]) == Exec(Exec(k1, c2).value, c3);
  }

  lemma {:induction false} SetDone(k0: Kernel, k: Kernel, sets: Sets, tmp: string -> string, done: set<string>,
                                   opts: set<string>, name: string)
    requires Fitting(k0, sets, tmp) && Progress(k0, k, sets, tmp, done, opts)
    requires name in sets && name !in done && sets[name].options in opts
    ensures var t, d := tmp(sets[name].options), sets[name];
            Progress(k0, With(With(k, name, Wanted(d)), t, KernelSet(d.options, {})), sets, tmp, done + {name}, opts)
  {
    var t := tmp(sets[name].options);
    assert t in TmpNames(opts, tmp) && t !in sets && name !in TmpNames(opts, tmp);
  }

  /** Changing an unmanaged set, creating a missing managed one and putting a wanted one in place are all safe. */
  lemma {:induction false} SafeStates(k0: Kernel, k: Kernel, sets: Sets, t: string, name: string)
    requires OldOrWanted(k0, sets, k) && t !in sets && name in sets && (name in k0 ==> name in k)
    ensures forall a :: OldOrWanted(k0, sets, With(k, t, a))
    ensures forall a, b :: name !in k ==> OldOrWanted(k0, sets, With(With(k, t, a), name, b))
    ensures forall a, b :: OldOrWanted(k0, sets, With(With(With(k, t, a), name, Wanted(sets[name])), t, b))
  {}

  lemma {:induction false} SwapIn(k0: Kernel, k: Kernel, k1: Kernel, sets: Sets, tmp: string -> string,
                                  done: set<string>, opts: set<string>, name: string)
    requires Fitting(k0, sets, tmp) && Progress(k0, k, sets, tmp, done, opts)
    requires name in sets && name !in done && sets[name].options in opts
    requires k1 == With(k, tmp(sets[name].options), Wanted(sets[name]))
    ensures var t, d := tmp(sets[name].options), sets[name];
            var cs := [Create(name, d.options), Swap(t, name), Flush(t)];
            && Throughout(k1, cs, Safe(k0, sets)) && Run(k1, cs).Ok?
            && Progress(k0, Run(k1, cs).value, sets, tmp, done + {name}, opts)
  {
    var d := sets[name];
    var t, p := tmp(d.options), Safe(k0, sets);
    assert t in TmpNames(opts, tmp) && t !in sets && name !in TmpNames(opts, tmp);
    SwapStates(k1, t, name, d);
    ProgressSafe(k0, k, sets, tmp, done, opts);
    SafeStates(k0, k, sets, t, name);
    ThreeCommands(k1, Create(name, d.options), Swap(t, name), Flush(t), p);
    assert With(With(k1, name, Wanted(d)), t, KernelSet(d.options, {})) ==
        With(With(k, name, Wanted(d)), t, KernelSet(d.options, {}));
    SetDone(k0, k, sets, tmp, done, opts, name);
  }

  // ---- Destroying the temporary sets ----

  /** Every managed set is in place; of the temporary sets only `left` remain; nothing else has changed. */
  ghost predicate Cleaned(k0: Kernel, k: Kernel, sets: Sets, tmp: string -> string, left: set<string>)
  {
    var tmps := TmpNames(AllOptions(sets), tmp);
    && left <= tmps
    && k.Keys == (k0.Keys + sets.Keys - tmps) + left
    && (forall n :: n in sets && n in k ==> k[n] == Wanted(sets[n]))
    && (forall n :: n in k0 && n !in sets && n !in tmps ==> k[n] == k0[n])
  }

  lemma {:induction false} AllDone(k0: Kernel, k: Kernel, sets: Sets, tmp: string -> string)
    requires Fitting(k0, sets, tmp) && Progress(k0, k, sets, tmp, sets.Keys, AllOptions(sets))
    ensures Cleaned(k0, k, sets, tmp, TmpNames(AllOptions(sets), tmp))
  {}

  lemma {:induction false} DestroyStep(k0: Kernel, k: Kernel, sets: Sets, tmp: string -> string, left: set<string>,
                                       t: string)
    requires Fitting(k0, sets, tmp) && Cleaned(k0, k, sets, tmp, left) && t in left
    ensures Exec(k, Destroy(t)).Ok? && Cleaned(k0, Exec(k, Destroy(t)).value, sets, tmp, left - {t})
    ensures OldOrWanted(k0, sets, k) && OldOrWanted(k0, sets, Exec(k, Destroy(t)).value)
  {
    forall n | n in sets ensures n !in TmpNames(AllOptions(sets), tmp) {}
  }

  // ---- The script ----

  /** From every fitting kernel state, the script so far runs without error through safe states. */
  ghost predicate Runs(k0: Kernel, script: seq<Command>, sets: Sets)
  {
    Throughout(k0, script, Safe(k0, sets)) && Run(k0, script).Ok?
  }

  ghost predicate Reaches(script: seq<Command>, sets: Sets, tmp: string -> string, done: set<string>, opts: set<string>)
  {
    forall k0 :: Fitting(k0, sets, tmp) ==>
      Runs(k0, script, sets) && Progress(k0, Run(k0, script).value, sets, tmp, done, opts)
  }

  ghost predicate Cleans(script: seq<Command>, sets: Sets, tmp: string -> string, left: set<string>)
  {
    forall k0 :: Fitting(k0, sets, tmp) ==>
      Runs(k0, script, sets) && Cleaned(k0, Run(k0, script).value, sets, tmp, left)
  }

  lemma {:induction false} StartReaches(sets: Sets, tmp: string -> string)
    ensures Reaches([], sets, tmp, {}, {})
  {
    forall k0 | Fitting(k0, sets, tmp)
      ensures Runs(k0, [], sets) && Progress(k0, Run(k0, []).value, sets, tmp, {}, {}) {}
  }

  lemma {:induction false} NewTmpReaches(script: seq<Command>, sets: Sets, tmp: string -> string, done: set<string>,
                                         opts: set<string>, o: string)
    requires Reaches(script, sets, tmp, done, opts) && o in AllOptions(sets) && o !in opts
    ensures Reaches(script + NewTmp(tmp(o), o), sets, tmp, done, opts + {o})
  {
    var more := NewTmp(tmp(o), o);
    forall k0 | Fitting(k0, sets, tmp)
      ensures Runs(k0, script + more, sets) && Progress(k0, Run(k0, script + more).value, sets, tmp, done, opts + {o})
    {
      NewTmpStep(k0, Run(k0, script).value, sets, tmp, done, opts, o);
      RunConcat(k0, script, more);
      ThroughoutConcat(k0, script, more, Safe(k0, sets));
    }
  }

  lemma {:induction false} OneSetReaches(script: seq<Command>, sets: Sets, tmp: string -> string, done: set<string>,
                                         opts: set<string>, name: string)
    requires Reaches(script, sets, tmp, done, opts) && name in sets && name !in done && sets[name].options in opts
    ensures Reaches(script + OneSet(tmp(sets[name].options), name, sets[name]), sets, tmp, done + {name}, opts)
  {
    var more := OneSet(tmp(sets[name].options), name, sets[name]);
    forall k0 | Fitting(k0, sets, tmp)
      ensures Runs(k0, script + more, sets)
      ensures Progress(k0, Run(k0, script + more).value, sets, tmp, done + {name}, opts)
    {
      OneSetStep(k0, Run(k0, script).value, sets, tmp, done, opts, name);
      RunConcat(k0, script, more);
      ThroughoutConcat(k0, script, more, Safe(k0, sets));
    }
  }

  lemma {:induction false} ReachesCleans(script: seq<Command>, sets: Sets, tmp: string -> string)
    requires Reaches(script, sets, tmp, sets.Keys, AllOptions(sets))
    ensures Cleans(script, sets, tmp, TmpNames(AllOptions(sets), tmp))
  {
    forall k0 | Fitting(k0, sets, tmp)
      ensures Runs(k0, script, sets) && Cleaned(k0, Run(k0, script).value, sets, tmp, TmpNames(AllOptions(sets), tmp))
    {
      AllDone(k0, Run(k0, script).value, sets, tmp);
    }
  }

  lemma {:induction false} DestroyCleans(script: seq<Command>, sets: Sets, tmp: string -> string, left: set<string>,
                                         t: string)
    requires Cleans(script, sets, tmp, left) && t in left
    ensures Cleans(script + [Destroy(t)], sets, tmp, left - {t})
  {
    forall k0 | Fitting(k0, sets, tmp)
      ensures Runs(k0, script + [Destroy(t)], sets)
      ensures Cleaned(k0, Run(k0, script + [Destroy(t)]).value, sets, tmp, left - {t})
    {
      var k := Run(k0, script).value;
      DestroyStep(k0, k, sets, tmp, left, t);
      OneCommand(k, Destroy(t), Safe(k0, sets));
      RunConcat(k0, script, [Destroy(t)]);
      ThroughoutConcat(k0, script, [Destroy(t)], Safe(k0, sets));
    }
  }

  /** Build the restore script.  Executed on any kernel state whose sets fit, it runs without error, leaves
      every managed set with exactly its entries, every other set unchanged and no temporary set behind, and at
      every command boundary each managed set that existed holds its old or its wanted members. */
  method BuildIPSetRestore(sets: Sets, tmp: string -> string) returns (script: seq<Command>)
    ensures Cleans(script, sets, tmp, {})
  {
    script := [];
    StartReaches(sets, tmp);
    var tmpSets: map<string, string> := map[];
    var todo := sets.Keys;
    ghost var done: set<string> := {};
    while todo != {}
      invariant todo !! done && todo + done == sets.Keys
      invariant Reaches(script, sets, tmp, done, tmpSets.Keys)
      invariant NamedBy(tmpSets, sets, tmp)
      invariant Served(done, tmpSets, sets)
    {
      var name :| name in todo;
      script, tmpSets := AppendSet(script, sets, tmp, done, tmpSets, name);
      todo, done := todo - {name}, done + {name};
    }
    AllOptionsNamed(tmpSets, sets, tmp);
    assert done == sets.Keys;
    ReachesCleans(script, sets, tmp);
    script := DestroyAll(script, sets, tmp, tmpSets.Values);
  }

  ghost predicate NamedBy(tmpSets: map<string, string>, sets: Sets, tmp: string -> string)
  {
    forall o :: o in tmpSets ==> tmpSets[o] == tmp(o) && o in AllOptions(sets)
  }

  /** The options of every set handled so far have a temporary set. */
  ghost predicate Served(done: set<string>, tmpSets: map<string, string>, sets: Sets)
  {
    forall n :: n in done && n in sets ==> sets[n].options in tmpSets
  }

  lemma {:induction false} AllOptionsNamed(tmpSets: map<string, string>, sets: Sets, tmp: string -> string)
    requires NamedBy(tmpSets, sets, tmp) && Served(sets.Keys, tmpSets, sets)
    ensures tmpSets.Keys == AllOptions(sets) && tmpSets.Values == TmpNames(AllOptions(sets), tmp)
  {
    forall t | t in TmpNames(AllOptions(sets), tmp) ensures t in tmpSets.Values {
      var o :| o in AllOptions(sets) && tmp(o) == t;
      assert tmpSets[o] == t;
    }
  }

  /** The commands for one set, after those for its temporary set if its options are new. */
  method AppendSet(before: seq<Command>, sets: Sets, tmp: string -> string, ghost done: set<string>,
                   known: map<string, string>, name: string)
    returns (script: seq<Command>, tmpSets: map<string, string>)
    requires name in sets && name !in done
    requires Reaches(before, sets, tmp, done, known.Keys) && NamedBy(known, sets, tmp)
    ensures Reaches(script, sets, tmp, done + {name}, tmpSets.Keys) && NamedBy(tmpSets, sets, tmp)
    ensures tmpSets.Keys == known.Keys + {sets[name].options}
  {
    script, tmpSets := before, known;
    var d := sets[name];
    if d.options !in tmpSets {
      NewTmpReaches(script, sets, tmp, done, tmpSets.Keys, d.options);
      script := script + [Create(tmp(d.options), d.options), Flush(tmp(d.options))];
      assert tmpSets[d.options := tmp(d.options)].Keys == tmpSets.Keys + {d.options};
      tmpSets := tmpSets[d.options := tmp(d.options)];
    }
    OneSetReaches(script, sets, tmp, done, tmpSets.Keys, name);
    var adds := AddEntries(tmpSets[d.options], d.entries);
    script := script + (adds + [Create(name, d.options), Swap(tmpSets[d.options], name), Flush(tmpSets[d.options])]);
  }

  /** Destroy the temporary sets, in any order. */
  method DestroyAll(filled: seq<Command>, ghost sets: Sets, ghost tmp: string -> string, names: set<string>)
    returns (script: seq<Command>)
    requires Cleans(filled, sets, tmp, names)
    ensures Cleans(script, sets, tmp, {})
  {
    script := filled;
    var left := names;
    while left != {}
      invariant Cleans(script, sets, tmp, left)
    {
      var t :| t in left;
      DestroyCleans(script, sets, tmp, left, t);
      script := script + [Destroy(t)];
      left := left - {t};
    }
  }

  method AddEntries(t: string, entries: seq<string>) returns (adds: seq<Command>)
    ensures adds == AddAll(t, entries)
  {
    adds := [];
    for i := 0 to |entries|
      invariant adds == AddAll(t, entries[..i])
    {
      assert entries[..i + 1][..i] == entries[..i];
      adds := adds + [Add(t, entries[i])];
    }
    assert entries[..|entries|] == entries;
  }

  /** What the script means, state by state. */
  lemma {:induction false} RestoreMeaning(script: seq<Command>, sets: Sets, tmp: string -> string, k0: Kernel, i: nat)
    requires Cleans(script, sets, tmp, {}) && Fitting(k0, sets, tmp) && i <= |script|
    ensures Run(k0, script[..i]).Ok? && OldOrWanted(k0, sets, Run(k0, script[..i]).value)
    ensures Run(k0, script).Ok?
    ensures var k := Run(k0, script).value;
            && (forall n :: n in sets ==> && n in k && k[n].options == sets[n].options
                                          && forall e :: e in k[n].members <==> e in sets[n].entries)
            && (forall o :: o in AllOptions(sets) ==> tmp(o) !in k)
            && (forall n :: n !in sets && n !in TmpNames(AllOptions(sets), tmp) ==> (n in k <==> n in k0)
                                                                                    && (n in k ==> k[n] == k0[n]))
  {
    assert Runs(k0, script, sets);
    ThroughoutPrefix(k0, script, Safe(k0, sets), i);
    forall n | n in sets ensures n !in TmpNames(AllOptions(sets), tmp) {}
    forall o | o in AllOptions(sets) ensures tmp(o) in TmpNames(AllOptions(sets), tmp) {}
  }
}
