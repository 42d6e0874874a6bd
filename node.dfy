/** `ProxmoxNode`: the tool's handle on one host. It keeps the deployment's
    base id and a cached list of the host's bridges, and turns the tool's
    local VM ids into platform ids. */
module Node {
  import opened Wrappers
  import opened Text
  import opened Registry
  import opened Naming
  import opened Platform

  /** The union of a sequence of sets. */
  function Union(sets: seq<set<string>>): set<string>
    decreases |sets|
  {
    if sets == [] then {} else Union(sets[..|sets| - 1]) + sets[|sets| - 1]
  }

  lemma UnionAppend(sets: seq<set<string>>, s: set<string>)
    ensures Union(sets + [s]) == Union(sets) + s
  {
    assert (sets + [s])[..|sets|] == sets;
  }

  lemma {:induction false} UnionMember(sets: seq<set<string>>, b: string)
    ensures b in Union(sets) <==> exists i :: 0 <= i < |sets| && b in sets[i]
    decreases |sets|
  {
    if sets != [] {
      var init := sets[..|sets| - 1];
      UnionMember(init, b);
      if b in Union(init) {
        var i :| 0 <= i < |init| && b in init[i];
        assert sets[i] == init[i];
      } else if b !in sets[|sets| - 1] {
        forall i | 0 <= i < |sets| ensures b !in sets[i] {
          if i < |init| { assert sets[i] == init[i]; }
        }
      }
    }
  }

  /** The bridges each VM listed in `order` binds, VM by VM. */
  function BoundSets(order: seq<int>, vms: map<int, Vm>): (r: seq<set<string>>)
    requires forall i :: 0 <= i < |order| ==> order[i] in vms
    ensures |r| == |order|
    decreases |order|
  {
    if order == [] then []
    else BoundSets(order[..|order| - 1], vms) + [BoundBy(vms[order[|order| - 1]].config)]
  }

  lemma {:induction false} BoundSetsIndex(order: seq<int>, vms: map<int, Vm>, i: nat)
    requires forall i :: 0 <= i < |order| ==> order[i] in vms
    requires i < |order|
    ensures BoundSets(order, vms)[i] == BoundBy(vms[order[i]].config)
    decreases |order|
  {
    var init := order[..|order| - 1];
    if i < |init| {
      BoundSetsIndex(init, vms, i);
      assert order[i] == init[i];
    }
  }

  /** The bridges bound by the VMs listed in `order`. */
  function BoundOnHost(order: seq<int>, vms: map<int, Vm>): set<string>
    requires forall i :: 0 <= i < |order| ==> order[i] in vms
  {
    Union(BoundSets(order, vms))
  }

  /** One more listed VM adds the bridges its configuration binds. */
  lemma BoundOnHostStep(order: seq<int>, vms: map<int, Vm>, k: nat)
    requires forall i :: 0 <= i < |order| ==> order[i] in vms
    requires k < |order|
    ensures BoundOnHost(order[..k + 1], vms) == BoundOnHost(order[..k], vms) + BoundBy(vms[order[k]].config)
  {
    PrefixOfPrefix(order, k, k + 1);
    assert BoundSets(order[..k + 1], vms) == BoundSets(order[..k], vms) + [BoundBy(vms[order[k]].config)];
    UnionAppend(BoundSets(order[..k], vms), BoundBy(vms[order[k]].config));
  }

  /** A bridge is bound on the host exactly when some listed VM binds it. */
  lemma BoundOnHostMember(order: seq<int>, vms: map<int, Vm>, b: string)
    requires forall i :: 0 <= i < |order| ==> order[i] in vms
    ensures b in BoundOnHost(order, vms) <==> exists i :: 0 <= i < |order| && Binds(vms[order[i]].config, b)
  {
    var sets := BoundSets(order, vms);
    UnionMember(sets, b);
    if b in Union(sets) {
      var i :| 0 <= i < |sets| && b in sets[i];
      BoundSetsIndex(order, vms, i);
    } else {
      forall i | 0 <= i < |order| ensures !Binds(vms[order[i]].config, b) {
        BoundSetsIndex(order, vms, i);
      }
    }
  }

  /** The innermost loop of `get_unbound_networks`: for each comma-separated
      part of one option value that starts with "bridge=", the part with
      the characters of "bridge=" stripped from both ends. */
  method BridgesOfValue(value: string) returns (bridges: set<string>)
    ensures bridges == BridgesOf(value)
  {
    var parts := Split(value, ',');
    bridges := {};
    var k := 0;
    while k < |parts|
      invariant 0 <= k <= |parts|
      invariant bridges == set p | p in parts[..k] && HasPrefix(p, "bridge=") :: Strip(p, BridgeChars)
    {
      assert parts[..k + 1] == parts[..k] + [parts[k]];
      if HasPrefix(parts[k], "bridge=") {
        bridges := bridges + {Strip(parts[k], BridgeChars)};
      }
      k := k + 1;
    }
    assert parts[..k] == parts;
  }

  /** One more option adds the bridges it names, if it is a `net*` option. */
  lemma BoundByAdd(done: map<string, string>, key: string, value: string)
    requires key !in done
    ensures BoundBy(done[key := value]) == BoundBy(done) + (if HasPrefix(key, "net") then BridgesOf(value) else {})
  {
    var after := done[key := value];
    forall b | b in BoundBy(after)
      ensures b in BoundBy(done) + (if HasPrefix(key, "net") then BridgesOf(value) else {})
    {
      var k :| k in after && HasPrefix(k, "net") && b in BridgesOf(after[k]);
      if k != key {
        assert k in done && done[k] == after[k];
      }
    }
    if HasPrefix(key, "net") {
      forall b | b in BridgesOf(value) ensures b in BoundBy(after) {
        assert key in after && after[key] == value;
      }
    }
    forall b | b in BoundBy(done) ensures b in BoundBy(after) {
      var k :| k in done && HasPrefix(k, "net") && b in BridgesOf(done[k]);
      assert k in after && after[k] == done[k];
    }
  }

  /** The middle loop of `get_unbound_networks`: the bridges bound by the
      `net*` options of one VM configuration. */
  method BoundByConfig(config: map<string, string>) returns (bound: set<string>)
    ensures bound == BoundBy(config)
  {
    bound := {};
    var todo := config.Keys;
    ghost var done: map<string, string> := map[];
    while todo != {}
      invariant todo <= config.Keys
      invariant done.Keys == config.Keys - todo
      invariant forall k :: k in done ==> done[k] == config[k]
      invariant bound == BoundBy(done)
      decreases |todo|
    {
      var key :| key in todo;
      BoundByAdd(done, key, config[key]);
      if HasPrefix(key, "net") {
        var more := BridgesOfValue(config[key]);
        bound := bound + more;
      }
      KeysStep(config, done, todo, key);
      done := done[key := config[key]];
      todo := todo - {key};
    }
    KeysDone(config, done);
  }

  /** Copying one more key keeps the copy a part of the map. */
  lemma KeysStep<K, V>(m: map<K, V>, done: map<K, V>, todo: set<K>, key: K)
    requires todo <= m.Keys && done.Keys == m.Keys - todo && key in todo
    requires forall k :: k in done ==> done[k] == m[k]
    ensures todo - {key} <= m.Keys && done[key := m[key]].Keys == m.Keys - (todo - {key})
    ensures forall k :: k in done[key := m[key]] ==> done[key := m[key]][k] == m[k]
  {
  }

  /** A copy with every key is the map. */
  lemma KeysDone<K, V>(m: map<K, V>, done: map<K, V>)
    requires done.Keys == m.Keys - {}
    requires forall k :: k in done ==> done[k] == m[k]
    ensures done == m
  {
  }

  /** How many stop requests `destroy` sends to a VM when it may send at most
      `budget` more: one per round while the VM reports "running". */
  function StopsSent(vm: Vm, budget: nat): (k: nat)
    ensures k <= budget
    decreases budget
  {
    if budget == 0 || vm.status != "running" then 0
    else 1 + StopsSent(Stopped(vm), budget - 1)
  }

  /** The VM after `k` stop requests. */
  function AfterStops(vm: Vm, k: nat): Vm
    decreases k
  {
    if k == 0 then vm else AfterStops(Stopped(vm), k - 1)
  }

  lemma {:induction false} AfterStopsStep(vm: Vm, k: nat)
    ensures AfterStops(vm, k + 1) == Stopped(AfterStops(vm, k))
    decreases k
  {
    if k > 0 {
      AfterStopsStep(Stopped(vm), k - 1);
    }
  }

  function Min(a: int, b: int): int {
    if a < b then a else b
  }

  /** The number of stop requests in closed form: none for a VM that is not
      running, otherwise as many as the VM needs, but never more than the
      budget. */
  lemma {:induction false} StopsSentClosedForm(vm: Vm, budget: nat)
    ensures StopsSent(vm, budget)
            == if vm.status != "running" then 0
               else Min(budget, if vm.stopsToHalt <= 1 then 1 else vm.stopsToHalt)
    decreases budget
  {
    if budget > 0 && vm.status == "running" {
      StopsSentClosedForm(Stopped(vm), budget - 1);
    }
  }

  /** After the stop requests it sends, the loop has either spent its budget
      or seen the VM leave the "running" status. */
  lemma {:induction false} StopsSentEnds(vm: Vm, budget: nat)
    ensures StopsSent(vm, budget) == budget || AfterStops(vm, StopsSent(vm, budget)).status != "running"
    decreases budget
  {
    if budget > 0 && vm.status == "running" {
      StopsSentEnds(Stopped(vm), budget - 1);
    }
  }

  /** `k` stop requests to one VM. */
  function Stops(vmid: int, k: nat): (r: seq<Call>)
    ensures |r| == k
  {
    if k == 0 then [] else Stops(vmid, k - 1) + [Stop(vmid)]
  }

  lemma {:induction false} StopsAll(vmid: int, k: nat)
    ensures forall j :: 0 <= j < k ==> Stops(vmid, k)[j] == Stop(vmid)
  {
    if k > 0 {
      StopsAll(vmid, k - 1);
    }
  }

  /** The most stop requests `destroy` sends. */
  const StopBudget: nat := 30

  class ProxmoxNode {
    const host: Host
    const pool: string
    var baseId: int
    var networks: seq<string>

    /** The cached bridge list agrees with the host. */
    ghost predicate Synced()
      reads this, host
    {
      networks == Bridges(host.ifaces)
    }

    /** `ProxmoxNode.__init__`: base id 0 and the bridge list read from the host. */
    constructor (host: Host, pool: string)
      ensures this.host == host && this.pool == pool && baseId == 0 && Synced()
    {
      this.host := host;
      this.pool := pool;
      baseId := 0;
      networks := [];
      new;
      GetNetworks();
    }

    /** `get_networks`: the host's interfaces whose name starts with "vmbr". */
    method GetNetworks()
      modifies this`networks
      ensures networks == Bridges(host.ifaces)
    {
      var ifaces := host.ifaces;
      var found: seq<string> := [];
      var k := 0;
      while k < |ifaces|
        invariant 0 <= k <= |ifaces|
        invariant found == Bridges(ifaces[..k])
      {
        var iface := ifaces[k];
        assert ifaces[..k + 1] == ifaces[..k] + [iface];
        BridgesAppend(ifaces[..k], iface);
        if HasPrefix(iface, "vmbr") {
          found := found + [iface];
        }
        k := k + 1;
      }
      assert ifaces[..k] == ifaces;
      networks := found;
    }

    /** `get_unbound_networks`: the cached bridges that no `net*` option of any
        VM on the host names. */
    method GetUnboundNetworks() returns (unbound: set<string>)
      requires host.Valid()
      ensures unbound == Unbound(networks, BoundOnHost(host.order, host.vms))
    {
      var order := host.order;
      var bound: set<string> := {};
      var k := 0;
      while k < |order|
        invariant 0 <= k <= |order|
        invariant bound == BoundOnHost(order[..k], host.vms)
      {
        var more := BoundByConfig(host.vms[order[k]].config);
        BoundOnHostStep(order, host.vms, k);
        bound := bound + more;
        k := k + 1;
      }
      PrefixAll(order);
      unbound := Unbound(networks, bound);
    }

    /** `exists`: whether the host has a VM at the platform id. */
    method Exists(id: int) returns (b: bool)
      ensures b <==> HostId(baseId, id) in host.vms
    {
      var status := host.Status(HostId(baseId, id));
      b := status.Some?;
    }

    /** `get_name`: the name of the VM at the platform id; the API's error
        where there is none. */
    method GetName(id: int) returns (r: Result<string>)
      ensures r.Ok? <==> HostId(baseId, id) in host.vms
      ensures r.Ok? ==> r.value == VmName(host.vms[HostId(baseId, id)])
      ensures r.Err? ==> r.error == NoSuchVm(HostId(baseId, id))
    {
      var vmid := HostId(baseId, id);
      if vmid !in host.vms {
        return Err(NoSuchVm(vmid));
      }
      r := Ok(VmName(host.vms[vmid]));
    }

    /** `get_node_deployments`: the stored records, or none when the
        description holds no deployment list. */
    method GetNodeDeployments() returns (records: seq<Record>)
      ensures host.description.Some? ==> records == host.description.value
      ensures host.description.None? ==> records == []
    {
      records := if host.description.Some? then host.description.value else [];
    }

    /** `set_node_deployments`: one write of the whole list. */
    method SetNodeDeployments(records: seq<Record>)
      modifies host
      ensures host.description == Some(records) && host.log == old(host.log) + [SetDeployments(records)]
      ensures host.vms == old(host.vms) && host.order == old(host.order) && host.ifaces == old(host.ifaces)
    {
      host.SetDescription(records);
    }

    method SetBaseId(baseId: int)
      modifies this`baseId
      ensures this.baseId == baseId
    {
      this.baseId := baseId;
    }

    /** `create_network`: a new bridge, then the cached list read again. */
    method CreateNetwork(net: NetRef, comments: string) returns (r: Result<string>)
      modifies this`networks, host
      ensures r == NetworkName(baseId, net)
      ensures r.Ok? ==> && host.ifaces == old(host.ifaces) + [r.value]
                        && host.log == old(host.log) + [CreateBridge(r.value, comments)]
                        && Synced() && r.value in networks
      ensures r.Err? ==> host.ifaces == old(host.ifaces) && host.log == old(host.log) && networks == old(networks)
      ensures host.vms == old(host.vms) && host.order == old(host.order) && host.description == old(host.description)
    {
      r := NetworkName(baseId, net);
      if r.Err? {
        return;
      }
      host.PostBridge(r.value, comments);
      GetNetworks();
      BridgesAppend(old(host.ifaces), r.value);
    }

    /** `delete_network`: nothing is sent under dry-run. */
    method DeleteNetwork(iface: string, dryRun: bool)
      modifies host
      ensures dryRun ==> host.ifaces == old(host.ifaces) && host.log == old(host.log)
      ensures !dryRun ==> host.ifaces == Remove(old(host.ifaces), iface)
                          && host.log == old(host.log) + [DeleteBridge(iface)]
      ensures host.vms == old(host.vms) && host.order == old(host.order) && host.description == old(host.description)
    {
      if !dryRun {
        host.DeleteBridgeIface(iface);
      }
    }

    /** `commit_network_config`. */
    method CommitNetworkConfig()
      modifies host
      ensures host.log == old(host.log) + [CommitNetwork]
      ensures host.vms == old(host.vms) && host.order == old(host.order)
      ensures host.ifaces == old(host.ifaces) && host.description == old(host.description)
    {
      host.PutNetwork();
    }

    /** `clone`: the template cloned to the platform id, in the node's pool. */
    method Clone(templateId: int, id: int) returns (r: Result<()>)
      requires host.Valid()
      modifies host
      ensures host.Valid()
      ensures r.Ok? <==> templateId in old(host.vms) && HostId(baseId, id) !in old(host.vms)
      ensures r.Ok? ==> && host.vms == old(host.vms)[HostId(baseId, id) := Vm("stopped", old(host.vms)[templateId].config, 0)]
                        && host.order == old(host.order) + [HostId(baseId, id)]
                        && host.log == old(host.log) + [Call.Clone(templateId, HostId(baseId, id), pool)]
      ensures r.Err? ==> host.vms == old(host.vms) && host.order == old(host.order) && host.log == old(host.log)
      ensures host.ifaces == old(host.ifaces) && host.description == old(host.description)
    {
      r := host.CloneVm(templateId, HostId(baseId, id), pool);
    }

    /** `start`. */
    method Start(id: int) returns (r: Result<()>)
      requires host.Valid()
      modifies host
      ensures host.Valid()
      ensures r.Ok? <==> HostId(baseId, id) in old(host.vms)
      ensures r.Ok? ==> && host.vms == old(host.vms)[HostId(baseId, id) := old(host.vms)[HostId(baseId, id)].(status := "running")]
                        && host.log == old(host.log) + [Call.Start(HostId(baseId, id))]
      ensures r.Err? ==> host.vms == old(host.vms) && host.log == old(host.log)
      ensures host.order == old(host.order) && host.ifaces == old(host.ifaces) && host.description == old(host.description)
    {
      r := host.StartVm(HostId(baseId, id));
    }

    /** `destroy`: while fewer than 30 stop requests were sent and the VM
        reports "running", one more stop request; then one delete, whether or
        not the VM stopped. A VM the host does not have is the API's error. */
    method Destroy(id: int) returns (r: Result<()>)
      requires host.Valid()
      modifies host
      ensures host.Valid()
      ensures r.Ok? <==> HostId(baseId, id) in old(host.vms)
      ensures r.Ok? ==> var vmid := HostId(baseId, id);
        && host.vms == old(host.vms) - {vmid}
        && host.order == Without(old(host.order), vmid)
        && host.log == old(host.log) + Stops(vmid, StopsSent(old(host.vms)[vmid], StopBudget)) + [Delete(vmid)]
      ensures r.Err? ==> host.vms == old(host.vms) && host.order == old(host.order) && host.log == old(host.log)
      ensures host.ifaces == old(host.ifaces) && host.description == old(host.description)
    {
      var vmid := HostId(baseId, id);
      var status := host.Status(vmid);
      if status.None? {
        return Err(NoSuchVm(vmid));
      }
      ghost var sent := StopWhileRunning(vmid);
      ghost var halted := host.vms;
      assert halted - {vmid} == old(host.vms) - {vmid};
      r := host.DeleteVm(vmid);
    }

    /** The loop of `destroy`: stop requests while the VM reports "running",
        at most StopBudget of them. */
    method StopWhileRunning(vmid: int) returns (ghost sent: nat)
      requires host.Valid() && vmid in host.vms
      modifies host
      ensures host.Valid()
      ensures sent == StopsSent(old(host.vms)[vmid], StopBudget)
      ensures host.vms == old(host.vms)[vmid := AfterStops(old(host.vms)[vmid], sent)]
      ensures host.log == old(host.log) + Stops(vmid, sent)
      ensures host.order == old(host.order) && host.ifaces == old(host.ifaces)
      ensures host.description == old(host.description)
    {
      ghost var vm := host.vms[vmid];
      ghost var cur := vm;
      var i := 0;
      while i < StopBudget
        invariant 0 <= i <= StopBudget && cur == AfterStops(vm, i)
        invariant host.vms == old(host.vms)[vmid := cur]
        invariant host.order == old(host.order) && host.ifaces == old(host.ifaces)
        invariant host.description == old(host.description)
        invariant host.log == old(host.log) + Stops(vmid, i)
        invariant StopsSent(vm, StopBudget) == i + StopsSent(cur, StopBudget - i)
      {
        var status := host.Status(vmid);
        if status != Some("running") {
          break;
        }
        var stopped := host.PostStop(vmid);
        AfterStopsStep(vm, i);
        UpdateTwice(old(host.vms), vmid, cur, Stopped(cur));
        cur := Stopped(cur);
        i := i + 1;
      }
      UpdateKeys(old(host.vms), vmid, cur);
      sent := i;
    }

    /** `set_options`: every option except `vmid` is sent to the VM at the
        platform id; an option set without `vmid` is the KeyError of `del`. */
    method SetOptions(id: int, options: map<string, string>) returns (r: Result<()>)
      requires host.Valid()
      modifies host
      ensures host.Valid()
      ensures r.Ok? <==> "vmid" in options && HostId(baseId, id) in old(host.vms)
      ensures r.Ok? ==> var vmid := HostId(baseId, id);
        && host.vms == old(host.vms)[vmid := old(host.vms)[vmid].(config := old(host.vms)[vmid].config + (options - {"vmid"}))]
        && host.log == old(host.log) + [SetConfig(vmid, options - {"vmid"})]
      ensures r.Err? ==> host.vms == old(host.vms) && host.log == old(host.log)
      ensures "vmid" !in options ==> r == Err(MissingVmid)
      ensures host.order == old(host.order) && host.ifaces == old(host.ifaces) && host.description == old(host.description)
    {
      if "vmid" !in options {
        return Err(MissingVmid);
      }
      r := host.SetVmConfig(HostId(baseId, id), options - {"vmid"});
    }
  }
}
