/** The Proxmox host the tool talks to, reduced to the state the tool reads
    and changes: its VMs (in listing order), its network interfaces, the
    deployment records kept in its description field, and a ghost log of
    every call that changed something. Each method is one API request. */
module Platform {
  import opened Wrappers
  import opened Registry

  /** A VM as the host reports it. `stopsToHalt` is how many stop requests
      the running VM needs before it reports a status other than "running"
      (0 and 1 both mean the first request halts it). */
  datatype Vm = Vm(status: string, config: map<string, string>, stopsToHalt: nat)

  /** The name the host lists for a VM: its `name` option. Where the VM has
      none, the tool's `vm['name']` raises KeyError; the model reads "" instead,
      which matches no name the tool compares it with (a template name is never
      empty, and a VM's full name always holds a '-'). */
  function VmName(vm: Vm): string {
    if "name" in vm.config then vm.config["name"] else ""
  }

  /** The VM after one stop request. */
  function Stopped(vm: Vm): (r: Vm)
    ensures r.config == vm.config
    ensures r.status != "running" <==> vm.stopsToHalt <= 1 || vm.status != "running"
    ensures r.status == "running" ==> r.stopsToHalt == vm.stopsToHalt - 1
  {
    if vm.status != "running" then vm
    else if vm.stopsToHalt <= 1 then Vm("stopped", vm.config, 0)
    else vm.(stopsToHalt := vm.stopsToHalt - 1)
  }

  /** A request that changed the host. */
  datatype Call =
    | SetDeployments(records: seq<Record>)
    | Stop(vmid: int)
    | Delete(vmid: int)
    | Clone(templateId: int, newId: int, pool: string)
    | SetConfig(vmid: int, options: map<string, string>)
    | Start(vmid: int)
    | CreateBridge(iface: string, comments: string)
    | DeleteBridge(iface: string)
    | CommitNetwork

  /** Calls that change a VM. */
  predicate TouchesVm(c: Call) {
    c.Stop? || c.Delete? || c.Clone? || c.SetConfig? || c.Start?
  }

  /** The VM a VM-changing call is addressed to. */
  function Target(c: Call): int
    requires TouchesVm(c)
  {
    match c
    case Stop(vmid) => vmid
    case Delete(vmid) => vmid
    case Clone(_, newId, _) => newId
    case SetConfig(vmid, _) => vmid
    case Start(vmid) => vmid
  }

  /** The listing order with one id taken out. */
  function Without(order: seq<int>, id: int): (r: seq<int>)
    ensures forall x :: x in r <==> x in order && x != id
    ensures |r| <= |order|
    decreases |order|
  {
    if order == [] then []
    else if order[0] == id then Without(order[1..], id)
    else [order[0]] + Without(order[1..], id)
  }

  /** The interface list with every entry of one name taken out. */
  function Remove(ifaces: seq<string>, iface: string): (r: seq<string>)
    ensures forall x :: x in r <==> x in ifaces && x != iface
    decreases |ifaces|
  {
    if ifaces == [] then []
    else if ifaces[0] == iface then Remove(ifaces[1..], iface)
    else [ifaces[0]] + Remove(ifaces[1..], iface)
  }

  lemma UpdateTwice<K, V>(m: map<K, V>, k: K, a: V, b: V)
    ensures m[k := a][k := b] == m[k := b]
  {
  }

  lemma UpdateKeys<K, V>(m: map<K, V>, k: K, v: V)
    requires k in m
    ensures m[k := v].Keys == m.Keys
  {
  }

  /** No id is listed twice. */
  predicate Distinct(s: seq<int>) {
    forall i, j :: 0 <= i < j < |s| ==> s[i] != s[j]
  }

  lemma {:induction false} WithoutDistinct(order: seq<int>, id: int)
    requires Distinct(order)
    ensures Distinct(Without(order, id))
    decreases |order|
  {
    if order != [] {
      var tail := order[1..];
      assert Distinct(tail) by {
        forall i, j | 0 <= i < j < |tail| ensures tail[i] != tail[j] {
          assert tail[i] == order[i + 1] && tail[j] == order[j + 1];
        }
      }
      WithoutDistinct(tail, id);
      var rest := Without(tail, id);
      if order[0] != id {
        assert order[0] !in tail by {
          forall m | 0 <= m < |tail| ensures tail[m] != order[0] {
            assert tail[m] == order[m + 1];
          }
        }
        var r := [order[0]] + rest;
        forall i, j | 0 <= i < j < |r| ensures r[i] != r[j] {
          if i == 0 {
            assert r[j] == rest[j - 1];
            assert rest[j - 1] in rest;
          } else {
            assert r[i] == rest[i - 1] && r[j] == rest[j - 1];
          }
        }
      }
    }
  }

  /** The loop of `find_template_id`: the index of the first listed VM that
      carries the name, or the length of the list when none does. */
  function FirstNamed(order: seq<int>, vms: map<int, Vm>, name: string): (k: nat)
    requires forall i :: 0 <= i < |order| ==> order[i] in vms
    ensures k <= |order|
    ensures k < |order| ==> VmName(vms[order[k]]) == name
    ensures forall j :: 0 <= j < k ==> VmName(vms[order[j]]) != name
    decreases |order|
  {
    if order == [] then 0
    else if VmName(vms[order[0]]) == name then 0
    else 1 + FirstNamed(order[1..], vms, name)
  }

  /** `find_template_id`: the id of the first listed VM that carries the
      name; None where the tool stops with an error. */
  function FindTemplate(order: seq<int>, vms: map<int, Vm>, name: string): (r: Option<int>)
    requires forall i :: 0 <= i < |order| ==> order[i] in vms
    ensures r.None? <==> forall i :: 0 <= i < |order| ==> VmName(vms[order[i]]) != name
    ensures r.Some? ==> exists k :: 0 <= k < |order| && order[k] == r.value && VmName(vms[order[k]]) == name
                          && forall j :: 0 <= j < k ==> VmName(vms[order[j]]) != name
  {
    var k := FirstNamed(order, vms, name);
    if k < |order| then Some(order[k]) else None
  }

  class Host {
    var vms: map<int, Vm>
    var order: seq<int>                   // the order `qemu.get()` lists the VMs in
    var ifaces: seq<string>
    var description: Option<seq<Record>>  // None when the field holds no deployment list
    ghost var log: seq<Call>

    ghost predicate Valid()
      reads this
    {
      && Distinct(order)
      && (forall id :: id in order <==> id in vms)
      && (forall i :: 0 <= i < |order| ==> order[i] in vms)
    }

    constructor (vms: map<int, Vm>, order: seq<int>, ifaces: seq<string>, description: Option<seq<Record>>)
      requires Distinct(order)
      requires forall id :: id in order <==> id in vms
      ensures Valid()
      ensures this.vms == vms && this.order == order && this.ifaces == ifaces
      ensures this.description == description && log == []
    {
      this.vms := vms;
      this.order := order;
      this.ifaces := ifaces;
      this.description := description;
      log := [];
    }

    /** `qemu(vmid).status.current.get()`: the status, or None where the
        API raises ResourceException. */
    method Status(vmid: int) returns (r: Option<string>)
      ensures r.Some? <==> vmid in vms
      ensures r.Some? ==> r.value == vms[vmid].status
    {
      r := if vmid in vms then Some(vms[vmid].status) else None;
    }

    /** `qemu(vmid).status.stop.post()`. */
    method PostStop(vmid: int) returns (r: Result<()>)
      modifies this
      ensures r.Ok? <==> vmid in old(vms)
      ensures r.Ok? ==> vms == old(vms)[vmid := Stopped(old(vms)[vmid])] && log == old(log) + [Stop(vmid)]
      ensures r.Err? ==> vms == old(vms) && log == old(log)
      ensures order == old(order) && ifaces == old(ifaces) && description == old(description)
    {
      if vmid !in vms {
        return Err(NoSuchVm(vmid));
      }
      vms := vms[vmid := Stopped(vms[vmid])];
      log := log + [Stop(vmid)];
      r := Ok(());
    }

    /** `qemu(vmid).delete()`. */
    method DeleteVm(vmid: int) returns (r: Result<()>)
      requires Valid()
      modifies this
      ensures Valid()
      ensures r.Ok? <==> vmid in old(vms)
      ensures r.Ok? ==> && vms == old(vms) - {vmid} && order == Without(old(order), vmid)
                        && log == old(log) + [Delete(vmid)]
      ensures r.Err? ==> vms == old(vms) && order == old(order) && log == old(log)
      ensures ifaces == old(ifaces) && description == old(description)
    {
      if vmid !in vms {
        return Err(NoSuchVm(vmid));
      }
      WithoutDistinct(order, vmid);
      vms := vms - {vmid};
      order := Without(order, vmid);
      log := log + [Delete(vmid)];
      r := Ok(());
    }

    /** `qemu(templateId).clone.create(newid=..., pool=...)`: the new VM
        starts stopped, with the template's configuration. */
    method CloneVm(templateId: int, newId: int, pool: string) returns (r: Result<()>)
      requires Valid()
      modifies this
      ensures Valid()
      ensures r.Ok? <==> templateId in old(vms) && newId !in old(vms)
      ensures r.Ok? ==> && vms == old(vms)[newId := Vm("stopped", old(vms)[templateId].config, 0)]
                        && order == old(order) + [newId]
                        && log == old(log) + [Clone(templateId, newId, pool)]
      ensures r.Err? ==> vms == old(vms) && order == old(order) && log == old(log)
      ensures ifaces == old(ifaces) && description == old(description)
    {
      if templateId !in vms || newId in vms {
        return Err(CloneRejected(templateId, newId));
      }
      assert newId !in order;
      vms := vms[newId := Vm("stopped", vms[templateId].config, 0)];
      order := order + [newId];
      log := log + [Clone(templateId, newId, pool)];
      r := Ok(());
    }

    /** `qemu(vmid).config.set(**options)`: the options are set, the others kept. */
    method SetVmConfig(vmid: int, options: map<string, string>) returns (r: Result<()>)
      requires Valid()
      modifies this
      ensures Valid()
      ensures r.Ok? <==> vmid in old(vms)
      ensures r.Ok? ==> && vms == old(vms)[vmid := old(vms)[vmid].(config := old(vms)[vmid].config + options)]
                        && log == old(log) + [SetConfig(vmid, options)]
      ensures r.Err? ==> vms == old(vms) && log == old(log)
      ensures order == old(order) && ifaces == old(ifaces) && description == old(description)
    {
      if vmid !in vms {
        return Err(NoSuchVm(vmid));
      }
      UpdateKeys(vms, vmid, vms[vmid].(config := vms[vmid].config + options));
      vms := vms[vmid := vms[vmid].(config := vms[vmid].config + options)];
      log := log + [SetConfig(vmid, options)];
      r := Ok(());
    }

    /** `qemu(vmid).status.start.post()`. */
    method StartVm(vmid: int) returns (r: Result<()>)
      requires Valid()
      modifies this
      ensures Valid()
      ensures r.Ok? <==> vmid in old(vms)
      ensures r.Ok? ==> && vms == old(vms)[vmid := old(vms)[vmid].(status := "running")]
                        && log == old(log) + [Start(vmid)]
      ensures r.Err? ==> vms == old(vms) && log == old(log)
      ensures order == old(order) && ifaces == old(ifaces) && description == old(description)
    {
      if vmid !in vms {
        return Err(NoSuchVm(vmid));
      }
      UpdateKeys(vms, vmid, vms[vmid].(status := "running"));
      vms := vms[vmid := vms[vmid].(status := "running")];
      log := log + [Start(vmid)];
      r := Ok(());
    }

    /** `network.post(type='bridge', iface=..., comments=..., autostart=1)`. */
    method PostBridge(iface: string, comments: string)
      modifies this
      ensures ifaces == old(ifaces) + [iface] && log == old(log) + [CreateBridge(iface, comments)]
      ensures vms == old(vms) && order == old(order) && description == old(description)
    {
      ifaces := ifaces + [iface];
      log := log + [CreateBridge(iface, comments)];
    }

    /** `network(iface).delete()`. */
    method DeleteBridgeIface(iface: string)
      modifies this
      ensures ifaces == Remove(old(ifaces), iface) && log == old(log) + [DeleteBridge(iface)]
      ensures vms == old(vms) && order == old(order) && description == old(description)
    {
      ifaces := Remove(ifaces, iface);
      log := log + [DeleteBridge(iface)];
    }

    /** `network().put()`: applies the pending network changes. */
    method PutNetwork()
      modifies this
      ensures log == old(log) + [CommitNetwork]
      ensures vms == old(vms) && order == old(order) && ifaces == old(ifaces) && description == old(description)
    {
      log := log + [CommitNetwork];
    }

    /** `config.set(description=...)` with the deployment list. */
    method SetDescription(records: seq<Record>)
      modifies this
      ensures description == Some(records) && log == old(log) + [SetDeployments(records)]
      ensures vms == old(vms) && order == old(order) && ifaces == old(ifaces)
    {
      description := Some(records);
      log := log + [SetDeployments(records)];
    }
  }
}
