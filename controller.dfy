/**
 * The controller node: it holds the configured host string, discovers one
 * light per new address, refreshes the lights on the short poll and sends a
 * heartbeat on the long poll. The host framework's node registry is the map
 * `nodes` (light address to light) together with `order`, the order in which
 * the lights were added, which is the order the framework lists them in.
 */
module Controller {
  import opened Strings
  import opened Identity
  import opened Light
  import opened NodeRegistry

  datatype Option<T> = None | Some(value: T)

  /** A command reported to the host framework, with its value. */
  datatype Command = Command(name: string, value: int)

  /** A node's driver report, as sent on a query. */
  datatype Report = ControllerStatus(address: string, st: int) | LightStatus(address: string, drivers: Drivers)

  /** The notice shown while no host is configured. */
  const CFG_NOTICE: string := "Twinkly requires the \"host\" parameter to be specified."

  // ---------------------------------------------------------------------------
  // Heartbeat

  /** One heartbeat from phase `hb`: phase 0 reports DON and moves to 1, any other phase reports DOF and moves to 0. */
  function Beat(hb: int): (res: (Command, int))
    ensures hb == 0 ==> res == (Command("DON", 2), 1)
    ensures hb != 0 ==> res == (Command("DOF", 2), 0)
  {
    if hb == 0 then (Command("DON", 2), 1) else (Command("DOF", 2), 0)
  }

  /** The commands reported by `n` consecutive heartbeats starting from phase `hb`. */
  function Pulses(hb: int, n: nat): (cmds: seq<Command>)
    ensures |cmds| == n
    decreases n
  {
    if n == 0 then [] else [Beat(hb).0] + Pulses(Beat(hb).1, n - 1)
  }

  /** The phase after `n` consecutive heartbeats starting from phase `hb`. */
  function PhaseAfter(hb: int, n: nat): int
    decreases n
  {
    if n == 0 then hb else PhaseAfter(Beat(hb).1, n - 1)
  }

  /** From phase 0 or 1, the phase after n heartbeats is (n + phase) mod 2. */
  lemma {:induction false} PhaseAlternates(hb: int, n: nat)
    requires hb == 0 || hb == 1
    ensures PhaseAfter(hb, n) == (n + hb) % 2
    decreases n
  {
    if n > 0 {
      PhaseAlternates(1 - hb, n - 1);
    }
  }

  /** Heartbeats alternate: from phase 0 or 1, the k-th heartbeat reports DON exactly when k + phase is odd. */
  lemma {:induction false} PulsesAlternate(hb: int, n: nat, k: nat)
    requires hb == 0 || hb == 1
    requires 1 <= k <= n
    ensures Pulses(hb, n)[k - 1] == Command(if (k + hb) % 2 == 1 then "DON" else "DOF", 2)
    decreases n
  {
    assert Pulses(hb, n) == [Beat(hb).0] + Pulses(1 - hb, n - 1);
    if k > 1 {
      PulsesAlternate(1 - hb, n - 1, k - 1);
      assert Pulses(hb, n)[k - 1] == Pulses(1 - hb, n - 1)[k - 2];
    }
  }

  /** Starting from phase 0, the k-th heartbeat reports DON exactly when k is odd. */
  lemma HeartbeatFromStart(n: nat, k: nat)
    requires 1 <= k <= n
    ensures Pulses(0, n)[k - 1].name == "DON" <==> k % 2 == 1
    ensures Pulses(0, n)[k - 1].name == "DOF" <==> k % 2 == 0
    ensures PhaseAfter(0, n) == n % 2
  {
    PulsesAlternate(0, n, k);
    PhaseAlternates(0, n);
  }

  // ---------------------------------------------------------------------------
  // The controller

  class Controller {
    /** The controller's own node address. */
    const address: string
    /** The node name shown by the host framework. */
    const name: string
    /** The controller node is skipped by its own short poll. */
    const queryON: bool
    /** MD5 of the UTF-8 encoded label, read as an integer. */
    const hash: string -> nat
    /** The configured, comma-separated host string. */
    var host: string
    /** Heartbeat phase. */
    var hb: int
    /** ST driver of the controller. */
    var st: int
    /** The user-visible notices, by key. */
    var notices: map<string, string>
    /** The light nodes registered with the host framework, by address. */
    var nodes: map<string, TwinklyLight>
    /** The addresses of `nodes`, in the order they were added. */
    var order: seq<string>

    /** The registry is well formed. */
    ghost predicate Valid()
      reads this
    {
      Registry(nodes, order) && Addressed(nodes)
    }

    /**
     * Discovery on `hosts` took the registry from its old state to this one:
     * the lights of `Plan` were added in order as fresh nodes, every node
     * that was there before is still there, untouched, and no other address
     * was registered.
     */
    twostate predicate Discovered(hosts: string)
      reads this, nodes.Values
    {
      var pieces := Split(hosts);
      var plan := Plan(Entries(hash, pieces), old(nodes).Keys, |pieces|);
      && Extended(old(nodes), old(order), plan, address, nodes, order)
      && (forall i :: 0 <= i < |plan| ==>
            plan[i].address in nodes && fresh(nodes[plan[i].address]) && nodes[plan[i].address].Cached() == INITIAL)
    }

    constructor (address: string, hash: string -> nat)
      requires !IsDecimal(address)
      ensures Valid()
      ensures this.address == address && this.hash == hash && name == "Twinkly" && !queryON
      ensures host == "" && hb == 0 && st == 1
      ensures notices == map[] && nodes == map[] && order == []
    {
      this.address := address;
      this.hash := hash;
      name := "Twinkly";
      queryON := false;
      host := "";
      hb := 0;
      st := 1;
      notices := map[];
      nodes := map[];
      order := [];
    }

    /** The start callback: report ST = 0. */
    method Start()
      modifies this
      ensures st == 0
      ensures host == old(host) && hb == old(hb) && notices == old(notices)
      ensures nodes == old(nodes) && order == old(order)
    {
      st := 0;
    }

    /**
     * The custom-parameters callback. With no "host" entry, or an empty one,
     * it shows the single "cfg" notice and discovers nothing; otherwise it
     * clears the notices and discovers the configured hosts.
     */
    method ParameterHandler(params: map<string, string>)
      requires Valid()
      modifies this
      ensures Valid()
      ensures host == if "host" in params then params["host"] else ""
      ensures host == "" ==> notices == map["cfg" := CFG_NOTICE] && nodes == old(nodes) && order == old(order)
      ensures host != "" ==> notices == map[] && Discovered(host)
      ensures hb == old(hb) && st == old(st)
    {
      notices := map[];
      if "host" in params {
        host := params["host"];
      } else {
        host := "";
      }
      if host == "" {
        notices := notices["cfg" := CFG_NOTICE];
      } else {
        Discover();
      }
    }

    /**
     * Discovery has handled the first `i` of `entries`, starting from the
     * registry `before`/`beforeOrder`: the lights of their plan have been
     * added, each a light of `made` that still holds the initial drivers.
     */
    ghost predicate Progress(before: map<string, TwinklyLight>, beforeOrder: seq<string>, entries: seq<Registration>,
                             i: nat, made: set<TwinklyLight>)
      reads this, made
    {
      && i <= |entries|
      && Registry(before, beforeOrder)
      && Grown(before, beforeOrder, Plan(entries, before.Keys, i), made, address, nodes, order)
      && forall l :: l in made ==> l.Cached() == INITIAL
    }

    /**
     * DISCOVER: split the host string on commas and, for the host at each
     * 1-based position, add a light under the address of its label unless
     * a node with that address is already registered.
     */
    method Discover()
      requires Valid()
      modifies this
      ensures Valid()
      ensures Discovered(host)
      ensures host == old(host) && hb == old(hb) && st == old(st) && notices == old(notices)
    {
      var hosts := Split(host);
      ghost var entries := Entries(hash, hosts);
      ghost var made := DiscoverHosts(hosts, entries);
      GrownDone(old(nodes), old(order), Plan(entries, old(nodes).Keys, |hosts|), made, address, nodes, order);
    }

    /**
     * DISCOVER sent twice with the same host string has the effect of one
     * DISCOVER: the second run finds every address registered and adds nothing.
     */
    method DiscoverTwice()
      requires Valid()
      modifies this
      ensures Valid()
      ensures Discovered(host)
      ensures host == old(host) && hb == old(hb) && st == old(st) && notices == old(notices)
    {
      ghost var entries := Entries(hash, Split(host));
      ghost var n := |Split(host)|;
      ghost var plan := Plan(entries, old(nodes).Keys, n);
      Discover();
      ghost var midNodes, midOrder := nodes, order;
      PlanTwice(entries, old(nodes).Keys);
      assert Plan(entries, midNodes.Keys, n) == [];
      label Mid:
      Discover();
      ExtendedByNothing(midNodes, midOrder, address, nodes, order);
      assert unchanged@Mid(midNodes.Values);
    }

    /** The discovery loop over `hosts`; `made` collects the lights it creates. */
    method DiscoverHosts(hosts: seq<string>, ghost entries: seq<Registration>) returns (ghost made: set<TwinklyLight>)
      requires Valid() && entries == Entries(hash, hosts)
      modifies this
      ensures Progress(old(nodes), old(order), entries, |hosts|, made) == true
      ensures fresh(made)
      ensures host == old(host) && hb == old(hb) && st == old(st) && notices == old(notices)
    {
      made := {};
      GrownStart(nodes, order, address);
      assert Plan(entries, nodes.Keys, 0) == [];
      assert Progress(nodes, order, entries, 0, made);
      // Progress is compared with `true` so that the verifier keeps it as one fact instead of splitting it into its parts.
      for i := 0 to |hosts|
        invariant Progress(old(nodes), old(order), entries, i, made) == true
        invariant fresh(made)
        invariant host == old(host) && hb == old(hb) && st == old(st) && notices == old(notices)
      {
        made := DiscoverHost(hosts, i, entries, old(nodes), old(order), made);
      }
    }

    /**
     * One pass of the discovery loop: compute the label and the address of
     * the host at position `i` (ordinal i + 1) and add a light for it unless
     * a node with that address is already registered.
     */
    method DiscoverHost(hosts: seq<string>, i: nat, ghost entries: seq<Registration>,
                        ghost before: map<string, TwinklyLight>, ghost beforeOrder: seq<string>,
                        ghost made: set<TwinklyLight>)
      returns (ghost made': set<TwinklyLight>)
      requires i < |hosts| && entries == Entries(hash, hosts)
      requires Progress(before, beforeOrder, entries, i, made) == true
      modifies this
      ensures Progress(before, beforeOrder, entries, i + 1, made') == true
      ensures fresh(made' - made) && made <= made'
      ensures host == old(host) && hb == old(hb) && st == old(st) && notices == old(notices)
    {
      var h := hosts[i];
      var uniqName := Label(h, i + 1);
      var myHash := NatToString(hash(uniqName) % MODULUS);
      ghost var added := Plan(entries, before.Keys, i);
      PlanNext(entries, before.Keys, i, entries[i]);
      assert entries[i] == Registration(myHash, uniqName, h);
      GrownHolds(before, beforeOrder, added, made, address, nodes, order, myHash);
      made' := made;
      if myHash !in nodes {
        made' := Register(myHash, uniqName, h, before, beforeOrder, added, made);
      }
    }

    /** Add a fresh light for the new address `id`, named `nodeName`, talking to `h`. */
    method Register(id: string, nodeName: string, h: string, ghost before: map<string, TwinklyLight>,
                    ghost beforeOrder: seq<string>, ghost added: seq<Registration>, ghost made: set<TwinklyLight>)
      returns (ghost made': set<TwinklyLight>)
      requires id !in nodes
      requires Grown(before, beforeOrder, added, made, address, nodes, order)
      requires forall l :: l in made ==> l.Cached() == INITIAL
      modifies this
      ensures Grown(before, beforeOrder, added + [Registration(id, nodeName, h)], made', address, nodes, order)
      ensures fresh(made' - made) && made <= made' && forall l :: l in made' ==> l.Cached() == INITIAL
      ensures host == old(host) && hb == old(hb) && st == old(st) && notices == old(notices)
    {
      var light := new TwinklyLight(address, id, nodeName, h);
      GrownAdd(before, beforeOrder, added, made, address, nodes, order, Registration(id, nodeName, h), light);
      nodes, order := nodes[id := light], order + [id];
      made' := made + {light};
      forall l | l in made' ensures l.Cached() == INITIAL {
        if l != light {
          assert l in made && l.Cached() == old(l.Cached());
        }
      }
    }

    /** The heartbeat: report DON or DOF by phase and flip the phase. */
    method Heartbeat() returns (cmd: Command)
      modifies this
      ensures (cmd, hb) == Beat(old(hb))
      ensures host == old(host) && st == old(st) && notices == old(notices)
      ensures nodes == old(nodes) && order == old(order)
    {
      if hb == 0 {
        cmd := Command("DON", 2);
        hb := 1;
      } else {
        cmd := Command("DOF", 2);
        hb := 0;
      }
    }

    /**
     * The poll callback. A poll type containing "shortPoll" sets ST to 1 and
     * refreshes every registered light whose queryON is set, each from its
     * own device reading; any other poll type sends a heartbeat and leaves
     * every driver value alone.
     */
    method Poll(polltype: string, readings: string -> Reading) returns (pulse: Option<Command>)
      requires Valid()
      modifies this, nodes.Values
      ensures Valid()
      ensures nodes == old(nodes) && order == old(order) && host == old(host) && notices == old(notices)
      ensures Contains(polltype, "shortPoll") ==>
        && st == 1 && hb == old(hb) && pulse == None
        && forall id :: id in nodes ==>
             nodes[id].Cached() == if nodes[id].queryON then Synced(old(nodes[id].Cached()), readings(id))
                                   else old(nodes[id].Cached())
      ensures !Contains(polltype, "shortPoll") ==>
        && pulse == Some(Beat(old(hb)).0) && hb == Beat(old(hb)).1 && st == old(st)
        && forall id :: id in nodes ==> nodes[id].Cached() == old(nodes[id].Cached())
    {
      RegistryDistinct(nodes, order);
      if Contains(polltype, "shortPoll") {
        st := 1;
        for i := 0 to |order|
          invariant nodes == old(nodes) && order == old(order) && host == old(host) && notices == old(notices)
          invariant st == 1 && hb == old(hb)
          invariant forall j :: 0 <= j < i ==>
            nodes[order[j]].Cached() == if nodes[order[j]].queryON then Synced(old(nodes[order[j]].Cached()), readings(order[j]))
                                        else old(nodes[order[j]].Cached())
          invariant forall j :: i <= j < |order| ==> nodes[order[j]].Cached() == old(nodes[order[j]].Cached())
        {
          var light := nodes[order[i]];
          if light.queryON {
            light.Update(readings(order[i]));
          }
        }
        forall id | id in nodes
          ensures nodes[id].Cached() == if nodes[id].queryON then Synced(old(nodes[id].Cached()), readings(id))
                                        else old(nodes[id].Cached())
        {
          RegistryKeys(nodes, order);
          ElementsIndex(order, id);
        }
        pulse := None;
      } else {
        var cmd := Heartbeat();
        pulse := Some(cmd);
      }
    }

    /** QUERY: every node re-reports its cached drivers, the controller first; nothing changes. */
    method Query() returns (reports: seq<Report>)
      requires Valid()
      ensures |reports| == |order| + 1
      ensures reports[0] == ControllerStatus(address, st)
      ensures forall i :: 0 <= i < |order| ==> order[i] in nodes && reports[i + 1] == LightStatus(order[i], nodes[order[i]].Cached())
    {
      RegistryDistinct(nodes, order);
      reports := [ControllerStatus(address, st)];
      for i := 0 to |order|
        invariant |reports| == i + 1
        invariant reports[0] == ControllerStatus(address, st)
        invariant forall j :: 0 <= j < i ==> reports[j + 1] == LightStatus(order[j], nodes[order[j]].Cached())
      {
        var drivers := nodes[order[i]].Query();
        reports := reports + [LightStatus(order[i], drivers)];
      }
    }
  }
}
