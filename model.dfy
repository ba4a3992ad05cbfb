/** The topology model of src/model.rs and its crawl step `add_machine`. The remote
    commands `add_machine` runs through `ssh` are given as an acquisition record; DNS and
    the CIDR library are the resolver of module Network. */
module Topology {
  import opened Text
  import opened ModelTypes
  import opened Exclude
  import opened Network
  import opened Cli

  /** What the remote commands print on a host: `hostname` (already trimmed), and the lines
      of `ip --brief address show`, `ss -tulpn` and `ss -tuapn`. */
  datatype Acquisition = Acquisition(
    hostname: string -> string,
    addressLines: string -> seq<string>,
    listenLines: string -> seq<string>,
    socketLines: string -> seq<string>)

  /** The contents of a `Model`. */
  datatype ModelState = ModelState(machines: seq<Machine>, connections: seq<Connection>)

  /** The gate of src/model.rs:52 and :56: in one of the networks and not host-excluded. */
  predicate Admitted(host: string, excludes: Option<string>, networks: string, res: Resolver) {
    InNetwork(host, networks, res) && !HostExcluded(host, excludes)
  }

  predicate Known(machines: seq<Machine>, hostname: string) {
    exists i :: 0 <= i < |machines| && machines[i].hostname == hostname
  }

  predicate HostnamesUnique(machines: seq<Machine>) {
    forall i, j :: 0 <= i < j < |machines| ==> machines[i].hostname != machines[j].hostname
  }

  /** The machine `add_machine` records for `host` under its resolved name. */
  function Acquire(host: string, hostname: string, excludes: Option<string>, acq: Acquisition): Machine {
    Machine(hostname, Interfaces(host, excludes, acq.addressLines(host)),
            Processes(host, excludes, acq.listenLines(host)))
  }

  /** The effect of one `add_machine` call on the model's contents. A step keeps every earlier
      machine and connection and adds at most one machine: the host's, under its resolved name,
      together with the host's connections in order; otherwise it changes nothing. */
  function AddMachineStep(s: ModelState, host: string, excludes: Option<string>, networks: string,
                          acq: Acquisition, res: Resolver): (t: ModelState)
    ensures s.machines <= t.machines && |t.machines| <= |s.machines| + 1
    ensures s.connections <= t.connections
    ensures |t.machines| == |s.machines| + 1 ==>
      && t.machines[|s.machines|] == Acquire(host, acq.hostname(host), excludes, acq)
      && t.connections == s.connections + Connections(host, excludes, acq.socketLines(host))
    ensures |t.machines| == |s.machines| ==> t == s
  {
    var hostname := acq.hostname(host);
    if !Admitted(host, excludes, networks, res) || !Admitted(hostname, excludes, networks, res)
       || Known(s.machines, hostname)
    then s
    else ModelState(s.machines + [Acquire(host, hostname, excludes, acq)],
                    s.connections + Connections(host, excludes, acq.socketLines(host)))
  }

  class Model {
    var machines: seq<Machine>
    var connections: seq<Connection>

    /** `Model::new`: no machines and no connections. */
    constructor ()
      ensures machines == [] && connections == []
    {
      machines := [];
      connections := [];
    }

    function State(): ModelState
      reads this
    {
      ModelState(machines, connections)
    }

    /** The duplicate scan of src/model.rs:59-63. */
    method IsKnown(hostname: string) returns (known: bool)
      ensures known == Known(machines, hostname)
    {
      var i := 0;
      while i < |machines|
        invariant i <= |machines|
        invariant forall j :: 0 <= j < i ==> machines[j].hostname != hostname
      {
        if machines[i].hostname == hostname {
          return true;
        }
        i := i + 1;
      }
      return false;
    }

    /** `Model::add_machine`: checks `host` and its resolved name against the networks and the
        host rules, skips a name already recorded, and otherwise appends the machine and the
        host's connections. */
    method AddMachine(host: string, excludes: Option<string>, networks: string, acq: Acquisition, res: Resolver)
      modifies this
      ensures State() == AddMachineStep(old(State()), host, excludes, networks, acq, res)
      ensures old(HostnamesUnique(machines)) ==> HostnamesUnique(machines)
    {
      var inNetwork := IsHostInNetwork(host, networks, res);
      if !inNetwork {
        return;
      }
      var excluded := IsHostExcluded(host, excludes);
      if excluded {
        return;
      }
      var hostname := acq.hostname(host);
      inNetwork := IsHostInNetwork(hostname, networks, res);
      if !inNetwork {
        return;
      }
      excluded := IsHostExcluded(hostname, excludes);
      if excluded {
        return;
      }
      var known := IsKnown(hostname);
      if known {
        return;
      }
      var interfaces := GetInterfaces(host, excludes, acq.addressLines(host));
      var processes := GetProcesses(host, excludes, acq.listenLines(host));
      UniqueAfterNewName(machines, Machine(hostname, interfaces, processes));
      machines := machines + [Machine(hostname, interfaces, processes)];
      var fetched := GetConnections(host, excludes, acq.socketLines(host));
      // `Vec::append` moves every element and leaves its argument empty.
      connections := connections + fetched;
      fetched := [];
      // The loop meant to crawl the remote hosts runs over the emptied vector.
      for k := 0 to |fetched| {
        assert false;
      }
    }
  }

  lemma UniqueAfterNewName(machines: seq<Machine>, m: Machine)
    requires !Known(machines, m.hostname)
    ensures HostnamesUnique(machines) ==> HostnamesUnique(machines + [m])
  {
    var all := machines + [m];
    if HostnamesUnique(machines) {
      forall i, j | 0 <= i < j < |all| ensures all[i].hostname != all[j].hostname {
        assert all[i] == machines[i];
        if j < |machines| {
          assert all[j] == machines[j];
        }
      }
    }
  }

  // ----- Properties of the crawl step -----

  /** A step changes the model exactly when both gates pass and the name is new. */
  lemma StepChangesIff(s: ModelState, host: string, excludes: Option<string>, networks: string,
                       acq: Acquisition, res: Resolver)
    ensures var hostname := acq.hostname(host);
      AddMachineStep(s, host, excludes, networks, acq, res) != s
      <==> Admitted(host, excludes, networks, res) && Admitted(hostname, excludes, networks, res)
           && !Known(s.machines, hostname)
  {
    var t := AddMachineStep(s, host, excludes, networks, acq, res);
    if t != s {
      assert |t.machines| == |s.machines| + 1;
    }
  }

  /** A host that fails the first gate leaves the model unchanged whatever the remote
      commands would print: nothing is acquired from it. */
  lemma RejectedHostAcquiresNothing(s: ModelState, host: string, excludes: Option<string>, networks: string,
                                    acq: Acquisition, acq': Acquisition, res: Resolver)
    requires !Admitted(host, excludes, networks, res)
    ensures AddMachineStep(s, host, excludes, networks, acq, res) == s
    ensures AddMachineStep(s, host, excludes, networks, acq', res) == s
  {
  }

  /** Every step keeps the recorded host names distinct. */
  lemma StepKeepsHostnamesUnique(s: ModelState, host: string, excludes: Option<string>, networks: string,
                                 acq: Acquisition, res: Resolver)
    requires HostnamesUnique(s.machines)
    ensures HostnamesUnique(AddMachineStep(s, host, excludes, networks, acq, res).machines)
  {
    var hostname := acq.hostname(host);
    if Admitted(host, excludes, networks, res) && Admitted(hostname, excludes, networks, res)
       && !Known(s.machines, hostname) {
      UniqueAfterNewName(s.machines, Acquire(host, hostname, excludes, acq));
    }
  }

  /** Adding the same host again, with the same answers, changes nothing; after an admitted
      step the name is recorded, and exactly once when the names were distinct before. */
  lemma StepIdempotent(s: ModelState, host: string, excludes: Option<string>, networks: string,
                       acq: Acquisition, res: Resolver)
    ensures var t := AddMachineStep(s, host, excludes, networks, acq, res);
      AddMachineStep(t, host, excludes, networks, acq, res) == t
    ensures var t := AddMachineStep(s, host, excludes, networks, acq, res);
      var hostname := acq.hostname(host);
      Admitted(host, excludes, networks, res) && Admitted(hostname, excludes, networks, res) ==>
        && Known(t.machines, hostname)
        && (HostnamesUnique(s.machines) ==>
              forall i, j :: (0 <= i < |t.machines| && 0 <= j < |t.machines|
                && t.machines[i].hostname == hostname && t.machines[j].hostname == hostname) ==> i == j)
  {
    var t := AddMachineStep(s, host, excludes, networks, acq, res);
    var hostname := acq.hostname(host);
    if Admitted(host, excludes, networks, res) && Admitted(hostname, excludes, networks, res) {
      if !Known(s.machines, hostname) {
        assert t.machines[|s.machines|].hostname == hostname;
      }
      if HostnamesUnique(s.machines) {
        StepKeepsHostnamesUnique(s, host, excludes, networks, acq, res);
      }
    }
  }

  /** The crawl of a list of starting hosts: `add_machine` for each, in order. It keeps every
      earlier machine and connection and adds at most one machine per host. */
  function Crawl(s: ModelState, hosts: seq<string>, excludes: Option<string>, networks: string,
                 acq: Acquisition, res: Resolver): (r: ModelState)
    ensures s.machines <= r.machines && s.connections <= r.connections
    ensures |r.machines| <= |s.machines| + |hosts|
    decreases |hosts|
  {
    if hosts == [] then s
    else Crawl(AddMachineStep(s, hosts[0], excludes, networks, acq, res), hosts[1..], excludes, networks, acq, res)
  }

  /** However many hosts are crawled, each machine is recorded once. */
  lemma {:induction false} CrawlKeepsHostnamesUnique(s: ModelState, hosts: seq<string>, excludes: Option<string>,
                                                    networks: string, acq: Acquisition, res: Resolver)
    requires HostnamesUnique(s.machines)
    ensures HostnamesUnique(Crawl(s, hosts, excludes, networks, acq, res).machines)
    decreases |hosts|
  {
    if hosts != [] {
      var t := AddMachineStep(s, hosts[0], excludes, networks, acq, res);
      StepKeepsHostnamesUnique(s, hosts[0], excludes, networks, acq, res);
      CrawlKeepsHostnamesUnique(t, hosts[1..], excludes, networks, acq, res);
    }
  }
}
