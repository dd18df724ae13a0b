/** The kernel's ip sets and the commands of the ipset tool, with the semantics of the -exist option. */
module IPSetKernel {
  import opened Wrappers

  /** The joined creation options of a set, and its members (the joined options of each entry). */
  datatype KernelSet = KernelSet(options: string, members: set<string>)

  type Kernel = map<string, KernelSet>

  datatype Command =
    | Create(name: string, options: string)
    | Flush(name: string)
    | Add(name: string, entry: string)
    | Swap(a: string, b: string)
    | Destroy(name: string)

  /** Creating a set again and adding a member again are not errors; only sets of one kind can be swapped. */
  function Exec(k: Kernel, c: Command): Result<Kernel>
  {
    match c
    case Create(n, o) => if n !in k then Ok(k[n := KernelSet(o, {})]) else if k[n].options == o then Ok(k) else Err
    case Flush(n) => if n in k then Ok(k[n := k[n].(members := {})]) else Err
    case Add(n, e) => if n in k then Ok(k[n := k[n].(members := k[n].members + {e})]) else Err
    case Swap(a, b) => if a in k && b in k && k[a].options == k[b].options then Ok(k[a := k[b]][b := k[a]]) else Err
    case Destroy(n) => if n in k then Ok(k - {n}) else Err
  }

  function Run(k: Kernel, cs: seq<Command>): Result<Kernel>
    decreases |cs|
  {
    if cs == [] then Ok(k)
    else
      var r := Exec(k, cs[0]);
      if r.Err? then Err else Run(r.value, cs[1..])
  }

  /** No command fails, and every state from the first to the last satisfies `p`. */
  ghost predicate Throughout(k: Kernel, cs: seq<Command>, p: Kernel -> bool)
    decreases |cs|
  {
    p(k) && (cs != [] ==> Exec(k, cs[0]).Ok? && Throughout(Exec(k, cs[0]).value, cs[1..], p))
  }

  lemma {:induction false} RunConcat(k: Kernel, cs: seq<Command>, ds: seq<Command>)
    requires Run(k, cs).Ok?
    ensures Run(k, cs + ds) == Run(Run(k, cs).value, ds)
    decreases |cs|
  {
    if cs == [] {
      assert cs + ds == ds;
    } else {
      assert (cs + ds)[1..] == cs[1..] + ds;
      RunConcat(Exec(k, cs[0]).value, cs[1..], ds);
    }
  }

  lemma {:induction false} ThroughoutRuns(k: Kernel, cs: seq<Command>, p: Kernel -> bool)
    requires Throughout(k, cs, p)
    ensures Run(k, cs).Ok? && p(Run(k, cs).value)
    decreases |cs|
  {
    if cs != [] { ThroughoutRuns(Exec(k, cs[0]).value, cs[1..], p); }
  }

  lemma {:induction false} ThroughoutConcat(k: Kernel, cs: seq<Command>, ds: seq<Command>, p: Kernel -> bool)
    requires Throughout(k, cs, p) && Run(k, cs).Ok? && Throughout(Run(k, cs).value, ds, p)
    ensures Throughout(k, cs + ds, p)
    decreases |cs|
  {
    if cs == [] {
      assert cs + ds == ds;
    } else {
      assert (cs + ds)[1..] == cs[1..] + ds;
      ThroughoutConcat(Exec(k, cs[0]).value, cs[1..], ds, p);
    }
  }

  /** The states of a run, command by command: `p` holds after every prefix of the script. */
  lemma {:induction false} ThroughoutPrefix(k: Kernel, cs: seq<Command>, p: Kernel -> bool, i: nat)
    requires Throughout(k, cs, p) && i <= |cs|
    ensures Run(k, cs[..i]).Ok? && p(Run(k, cs[..i]).value)
    decreases |cs|
  {
    if i > 0 {
      assert cs[..i][1..] == cs[1..][..i - 1];
      ThroughoutPrefix(Exec(k, cs[0]).value, cs[1..], p, i - 1);
    }
  }
}
