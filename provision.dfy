/** `create_vm` and `confirm`: building a VM's options, creating the bridges
    it needs, and the collision policy around cloning it from its template. */
module Provision {
  import opened Wrappers
  import opened Text
  import opened Registry
  import opened Naming
  import opened VmOptions
  import opened Platform
  import opened Node

  /** The command-line switches the core reads. */
  datatype Args = Args(
    force: bool,          // --force: no confirmation questions
    forceDelete: bool,    // --force-delete: replace an existing VM of the same name
    autostart: bool,      // --autostart
    nicType: string,      // --nic-type, "virtio" by default
    dryRun: bool,         // --dry-run
    remove: bool,         // --remove
    allow: seq<string>,   // the positional VM names
    exclude: seq<string>) // --exclude, repeatable

  /** `confirm(message, force)` given the operator's answer: None is the end
      of the console input, on which `input` raises. */
  function Confirm(force: bool, answer: Option<string>): (r: Result<bool>)
    ensures r.Ok? <==> force || answer.Some?
    ensures r == Ok(true) <==> force || answer == Some("y") || answer == Some("Y")
    ensures r.Err? ==> r.error == EndOfInput
  {
    if force then Ok(true)
    else if answer.None? then Err(EndOfInput)
    else Ok(answer.value == "y" || answer.value == "Y")
  }

  /** The operator's answer to the question about a missing bridge; a
      bridge without an answer is the end of the console input. */
  function Answer(answers: map<string, string>, name: string): Option<string> {
    if name in answers then Some(answers[name]) else None
  }

  /** The prompt defaults to no: an empty answer, or anything other than a
      single y, declines. */
  lemma ConfirmDefaultsToNo(answer: string)
    requires answer != "y" && answer != "Y"
    ensures Confirm(false, Some(answer)) == Ok(false)
  {
  }

  // ---------------------------------------------------------------------
  // The first free NIC index (lines 210-213)

  /** `j` distinct `net<m>` keys in an option set need at least `j` options. */
  lemma NetKeysBound(opts: Options, j: nat)
    requires forall m: nat :: m < j ==> NetKey(m) in opts
    ensures j <= |opts|
  {
    var keys := set m: nat | m < j :: NetKey(m);
    NetKeysCount(j);
    assert keys <= opts.Keys;
    SubsetSize(keys, opts.Keys);
  }

  lemma {:induction false} NetKeysCount(j: nat)
    ensures |set m: nat | m < j :: NetKey(m)| == j
    decreases j
  {
    if j > 0 {
      NetKeysCount(j - 1);
      var smaller := set m: nat | m < j - 1 :: NetKey(m);
      assert (set m: nat | m < j :: NetKey(m)) == smaller + {NetKey(j - 1)};
      forall m: nat | m < j - 1 ensures NetKey(m) != NetKey(j - 1) {
        NetKeyInjective(m, j - 1);
      }
    }
  }

  /** The `while key.format(i) in vm_options` loop. */
  method FirstFreeNet(opts: Options) returns (i: nat)
    ensures FirstFree(opts, i)
  {
    i := 0;
    while NetKey(i) in opts
      invariant forall m: nat :: m < i ==> NetKey(m) in opts
      invariant i <= |opts|
      decreases |opts| - i
    {
      NetKeysBound(opts, i + 1);
      i := i + 1;
    }
  }

  /** Only one index is the first free one. */
  lemma FirstFreeUnique(opts: Options, i: nat, j: nat)
    requires FirstFree(opts, i) && FirstFree(opts, j)
    ensures i == j
  {
  }

  // ---------------------------------------------------------------------
  // Bridges for the VM's networks (lines 214-238)

  /** The names `get_network_name` gives the network references, in order;
      the first reference it rejects is the error. */
  function ResolveNames(baseId: int, nets: seq<NetRef>): Result<seq<string>>
    decreases |nets|
  {
    if nets == [] then Ok([])
    else
      match ResolveNames(baseId, nets[..|nets| - 1])
      case Err(e) => Err(e)
      case Ok(rest) =>
        match NetworkName(baseId, nets[|nets| - 1])
        case Err(e) => Err(e)
        case Ok(name) => Ok(rest + [name])
  }

  /** The names resolve exactly when every reference does, and then they
      are the references' names in order. */
  lemma ResolveNamesSpec(baseId: int, nets: seq<NetRef>)
    ensures var r := ResolveNames(baseId, nets);
      && (r.Ok? <==> forall j :: 0 <= j < |nets| ==> NetworkName(baseId, nets[j]).Ok?)
      && (r.Ok? ==> |r.value| == |nets|
                    && forall j :: 0 <= j < |nets| ==> r.value[j] == NetworkName(baseId, nets[j]).value)
  {
    if forall j :: 0 <= j < |nets| ==> NetworkName(baseId, nets[j]).Ok? {
      ResolveNamesAllOk(baseId, nets);
    }
    if ResolveNames(baseId, nets).Ok? {
      ResolveNamesOkAll(baseId, nets);
    }
  }

  lemma {:induction false} ResolveNamesAllOk(baseId: int, nets: seq<NetRef>)
    requires forall j :: 0 <= j < |nets| ==> NetworkName(baseId, nets[j]).Ok?
    ensures var r := ResolveNames(baseId, nets);
      && r.Ok? && |r.value| == |nets|
      && forall j :: 0 <= j < |nets| ==> r.value[j] == NetworkName(baseId, nets[j]).value
    decreases |nets|
  {
    if nets != [] {
      var init := nets[..|nets| - 1];
      var last := nets[|nets| - 1];
      forall j | 0 <= j < |init| ensures NetworkName(baseId, init[j]).Ok? {
        assert init[j] == nets[j];
      }
      ResolveNamesAllOk(baseId, init);
      var rest := ResolveNames(baseId, init).value;
      var r := ResolveNames(baseId, nets);
      assert r.value == rest + [NetworkName(baseId, last).value];
      forall j | 0 <= j < |nets| ensures r.value[j] == NetworkName(baseId, nets[j]).value {
        if j < |init| {
          assert init[j] == nets[j];
        }
      }
    }
  }

  lemma {:induction false} ResolveNamesOkAll(baseId: int, nets: seq<NetRef>)
    requires ResolveNames(baseId, nets).Ok?
    ensures forall j :: 0 <= j < |nets| ==> NetworkName(baseId, nets[j]).Ok?
    decreases |nets|
  {
    if nets != [] {
      var init := nets[..|nets| - 1];
      ResolveNamesOkAll(baseId, init);
      forall j | 0 <= j < |nets| ensures NetworkName(baseId, nets[j]).Ok? {
        if j < |init| {
          assert init[j] == nets[j];
        }
      }
    }
  }

  /** The first reference that does not resolve is the error. */
  lemma {:induction false} ResolveNamesError(baseId: int, nets: seq<NetRef>, k: nat)
    requires k < |nets| && NetworkName(baseId, nets[k]).Err?
    requires forall j :: 0 <= j < k ==> NetworkName(baseId, nets[j]).Ok?
    ensures ResolveNames(baseId, nets) == Err(NetworkName(baseId, nets[k]).error)
    decreases |nets|
  {
    var init := nets[..|nets| - 1];
    if k < |nets| - 1 {
      assert init[k] == nets[k];
      assert forall j :: 0 <= j < k ==> init[j] == nets[j];
      ResolveNamesError(baseId, init, k);
    } else {
      ResolveNamesSpec(baseId, init);
      assert forall j :: 0 <= j < |init| ==> init[j] == nets[j];
    }
  }

  /** A reference that does not resolve makes the whole list fail. */
  lemma ResolveNamesPrefixError(baseId: int, nets: seq<NetRef>, k: nat)
    requires k < |nets| && NetworkName(baseId, nets[k]).Err?
    ensures ResolveNames(baseId, nets).Err?
  {
    ResolveNamesSpec(baseId, nets);
  }

  lemma ResolveNamesStep(baseId: int, nets: seq<NetRef>, k: nat, names: seq<string>, name: string)
    requires k < |nets|
    requires ResolveNames(baseId, nets[..k]) == Ok(names) && NetworkName(baseId, nets[k]) == Ok(name)
    ensures ResolveNames(baseId, nets[..k + 1]) == Ok(names + [name])
  {
    assert nets[..k + 1][..k] == nets[..k];
  }

  /** The bridge-creation requests for the bridges in `created`. */
  function Creations(created: seq<string>, comments: string): (r: seq<Call>)
    ensures |r| == |created|
    ensures forall j :: 0 <= j < |r| ==> r[j] == CreateBridge(created[j], comments)
    decreases |created|
  {
    if created == [] then []
    else Creations(created[..|created| - 1], comments) + [CreateBridge(created[|created| - 1], comments)]
  }

  lemma CreationsAppend(created: seq<string>, name: string, comments: string)
    ensures Creations(created + [name], comments) == Creations(created, comments) + [CreateBridge(name, comments)]
  {
    assert (created + [name])[..|created|] == created;
  }

  /** The body of the NIC loop for one resolved name: a bridge the cached
      list lacks is created once the operator agrees (or --force); a refusal
      is the fatal "missing network". Ok(true) when a bridge was created. */
  method EnsureBridge(node: ProxmoxNode, name: string, force: bool, answers: map<string, string>, comments: string)
    returns (r: Result<bool>)
    requires node.Synced() && HasPrefix(name, "vmbr")
    modifies node`networks, node.host
    ensures node.Synced()
    ensures node.host.vms == old(node.host.vms) && node.host.order == old(node.host.order)
    ensures node.host.description == old(node.host.description)
    ensures r.Ok? <==> name in old(node.networks) || Confirm(force, Answer(answers, name)) == Ok(true)
    ensures r.Ok? ==> name in node.networks
    ensures r == Ok(true) <==> name !in old(node.networks) && r.Ok?
    ensures r == Ok(true) ==> && node.host.ifaces == old(node.host.ifaces) + [name]
                              && node.host.log == old(node.host.log) + [CreateBridge(name, comments)]
    ensures r != Ok(true) ==> && node.host.ifaces == old(node.host.ifaces)
                              && node.host.log == old(node.host.log) && node.networks == old(node.networks)
  {
    if name in node.networks {
      return Ok(false);
    }
    var yes := Confirm(force, Answer(answers, name));
    if yes.Err? {
      return Err(yes.error);
    }
    if !yes.value {
      return Err(MissingNetwork(name));
    }
    var made := node.CreateNetwork(Name(name), comments);
    r := Ok(true);
  }

  /** The bridges the NIC loop creates for the resolved names, given the
      bridges known before it: each name neither known nor created earlier,
      once, in order. */
  function Missing(known: seq<string>, names: seq<string>): seq<string>
    decreases |names|
  {
    if names == [] then []
    else
      var before := Missing(known, names[..|names| - 1]);
      var name := names[|names| - 1];
      if name in known || name in before then before else before + [name]
  }

  lemma MissingStep(known: seq<string>, names: seq<string>, name: string)
    ensures Missing(known, names + [name])
            == if name in known || name in Missing(known, names) then Missing(known, names)
               else Missing(known, names) + [name]
  {
    assert (names + [name])[..|names|] == names;
  }

  /** A bridge is created exactly for the names that were not known before. */
  lemma {:induction false} MissingMember(known: seq<string>, names: seq<string>, n: string)
    ensures n in Missing(known, names) <==> n in names && n !in known
    decreases |names|
  {
    if names != [] {
      var init := names[..|names| - 1];
      MissingMember(known, init, n);
      assert names == init + [names[|names| - 1]];
    }
  }

  /** No name occurs twice. */
  predicate Unique(s: seq<string>) {
    forall i, j :: 0 <= i < j < |s| ==> s[i] != s[j]
  }

  lemma UniqueSnoc(s: seq<string>, x: string)
    requires Unique(s) && x !in s
    ensures Unique(s + [x])
  {
    var t := s + [x];
    forall i, j | 0 <= i < j < |t| ensures t[i] != t[j] {
      assert t[i] == s[i];
      if j == |s| {
        assert s[i] in s;
      } else {
        assert t[j] == s[j];
      }
    }
  }

  /** No bridge is created twice. */
  lemma {:induction false} MissingUnique(known: seq<string>, names: seq<string>)
    ensures Unique(Missing(known, names))
    decreases |names|
  {
    if names != [] {
      var init := names[..|names| - 1];
      var name := names[|names| - 1];
      MissingUnique(known, init);
      if !(name in known || name in Missing(known, init)) {
        UniqueSnoc(Missing(known, init), name);
      }
    }
  }

  /** EnsureBridge as one round of the NIC loop sees it: the loop has so far
      created the bridges Missing(known, names) on top of `ifaces0`, whose
      bridges are `known`. */
  method EnsureRound(node: ProxmoxNode, name: string, force: bool, answers: map<string, string>, comments: string,
                     ghost ifaces0: seq<string>, ghost log0: seq<Call>, ghost names: seq<string>)
    returns (r: Result<bool>)
    requires node.Synced() && HasPrefix(name, "vmbr")
    requires node.host.ifaces == ifaces0 + Missing(Bridges(ifaces0), names)
    requires node.host.log == log0 + Creations(Missing(Bridges(ifaces0), names), comments)
    modifies node`networks, node.host
    ensures node.Synced()
    ensures node.host.vms == old(node.host.vms) && node.host.order == old(node.host.order)
    ensures node.host.description == old(node.host.description)
    ensures r.Ok? <==> name in old(node.networks) || Confirm(force, Answer(answers, name)) == Ok(true)
    ensures r.Err? ==> node.host.ifaces == old(node.host.ifaces) && node.host.log == old(node.host.log)
    ensures r.Ok? ==> var grown := Missing(Bridges(ifaces0), names + [name]);
      && (r.value <==> grown != Missing(Bridges(ifaces0), names))
      && node.host.ifaces == ifaces0 + grown && node.host.log == log0 + Creations(grown, comments)
      && (grown != [] <==> Missing(Bridges(ifaces0), names) != [] || r.value)
  {
    ghost var known := Bridges(ifaces0);
    ghost var created := Missing(known, names);
    BridgesSplit(ifaces0, created, name);
    MissingStep(known, names, name);
    r := EnsureBridge(node, name, force, answers, comments);
    if r == Ok(true) {
      CreationsAppend(created, name, comments);
      Associative(log0, Creations(created, comments), [CreateBridge(name, comments)]);
      Associative(ifaces0, created, [name]);
      assert |created + [name]| != |created|;
    }
  }

  /** A bridge of the grown interface list was there before or is new. */
  lemma BridgesSplit(ifaces: seq<string>, more: seq<string>, n: string)
    ensures n in Bridges(ifaces + more) <==> n in Bridges(ifaces) || (n in more && HasPrefix(n, "vmbr"))
  {
    BridgesMember(ifaces + more, n);
    BridgesMember(ifaces, n);
  }

  /** The network part of the NIC loop: every network is resolved to a
      bridge name and a missing bridge is created (EnsureBridge). The names
      in order are the result; `created` are the bridges made. */
  method AddNetworks(node: ProxmoxNode, nets: seq<NetRef>, force: bool, answers: map<string, string>, comments: string)
    returns (r: Result<seq<string>>, newNetwork: bool, ghost names: seq<string>)
    requires node.Synced()
    modifies node`networks, node.host
    ensures node.Synced()
    ensures node.host.vms == old(node.host.vms) && node.host.order == old(node.host.order)
    ensures node.host.description == old(node.host.description)
    ensures var created := Missing(old(node.networks), names);
      && node.host.ifaces == old(node.host.ifaces) + created
      && node.host.log == old(node.host.log) + Creations(created, comments)
      && (newNetwork <==> created != [])
    ensures ResolveNames(node.baseId, nets).Err? ==> r.Err?
    ensures r.Ok? ==> ResolveNames(node.baseId, nets) == Ok(r.value) && names == r.value
  {
    ghost var log0, ifaces0 := node.host.log, node.host.ifaces;
    var base := node.baseId;
    var resolvedNames: seq<string> := [];
    names := [];
    newNetwork := false;
    var failure: Option<Error> := None;
    var k := 0;
    while k < |nets| && failure.None?
      invariant 0 <= k <= |nets|
      invariant node.Synced() && node.baseId == base
      invariant node.host.vms == old(node.host.vms) && node.host.order == old(node.host.order)
      invariant node.host.description == old(node.host.description)
      invariant node.host.ifaces == ifaces0 + Missing(Bridges(ifaces0), names)
      invariant node.host.log == log0 + Creations(Missing(Bridges(ifaces0), names), comments)
      invariant newNetwork <==> Missing(Bridges(ifaces0), names) != []
      invariant names == resolvedNames
      invariant failure.None? ==> |names| == k && ResolveNames(base, nets[..k]) == Ok(names)
      decreases |nets| - k, failure.None?
    {
      var resolved := NetworkName(base, nets[k]);
      if resolved.Err? {
        ResolveNamesPrefixError(base, nets, k);
        failure := Some(resolved.error);
      } else {
        var name := resolved.value;
        var ensured := EnsureRound(node, name, force, answers, comments, ifaces0, log0, names);
        if ensured.Err? {
          failure := Some(ensured.error);
        } else {
          newNetwork := newNetwork || ensured.value;
          ResolveNamesStep(base, nets, k, names, name);
          names := names + [name];
          resolvedNames := resolvedNames + [name];
          k := k + 1;
        }
      }
    }
    if failure.Some? {
      r := Err(failure.value);
    } else {
      assert nets[..k] == nets;
      r := Ok(resolvedNames);
    }
  }

  /** The `already_added` search: whether some `net*` option already
      carries `bridge=<bridge>`. */
  method AlreadyAdded(opts: Options, bridge: string) returns (found: bool)
    ensures found == Attached(opts, bridge)
  {
    var keys := opts.Keys;
    found := false;
    while keys != {} && !found
      invariant keys <= opts.Keys
      invariant found ==> Attached(opts, bridge)
      invariant !found ==> forall k :: k in opts && k !in keys ==> !Attaches(k, opts[k], bridge)
      decreases |keys|
    {
      var key :| key in keys;
      if Attaches(key, opts[key], bridge) {
        found := true;
      }
      keys := keys - {key};
    }
  }

  /** The attachment part of the NIC loop over the resolved names: the
      bridge is the part of a name before any comma; it is written to
      `net<i>` unless already attached, and `i` advances either way. */
  method AttachNics(opts: Options, first: nat, names: seq<string>, nic: string) returns (cur: Options)
    ensures cur == Attach(opts, first, names, nic)
  {
    cur := opts;
    var k := 0;
    while k < |names|
      invariant 0 <= k <= |names|
      invariant cur == Attach(opts, first, names[..k], nic)
    {
      var bridge := BeforeComma(names[k]);
      var added := AlreadyAdded(cur, bridge);
      AttachPrefixStep(opts, first, names, nic, k);
      if !added {
        cur := cur[NetKey(first + k) := NicValue(nic, bridge)];
      }
      k := k + 1;
    }
    PrefixAll(names);
  }

  // ---------------------------------------------------------------------
  // The VM-changing calls of a run

  /** None of the calls changes a VM. */
  predicate NoneTouchVm(calls: seq<Call>) {
    forall j :: 0 <= j < |calls| ==> !TouchesVm(calls[j])
  }

  /** The comment `create_vm` gives the bridges it creates. */
  function Comments(dep: Deployment): string {
    "Network is part of deployment " + dep.name
  }

  /** What the destroy step of `create_vm` sends for a VM that is there. */
  function DestroyCalls(vmid: int, vm: Vm): seq<Call> {
    Stops(vmid, StopsSent(vm, StopBudget)) + [Delete(vmid)]
  }

  /** The template a VM entry names; None where `not template_name` holds. */
  function TemplateName(vm: VmSpec): Option<string> {
    if vm.template.Some? && vm.template.value != "" then vm.template else None
  }

  /** The option set `create_vm` sends to the host: the configured options
      with the NICs attached, less `vmid`. */
  function SentOptions(dep: Deployment, vm: VmSpec, first: nat, names: seq<string>, nic: string): Options
    requires ConfiguredOptions(dep, vm).Ok?
  {
    Attach(ConfiguredOptions(dep, vm).value, first, names, nic) - {"vmid"}
  }

  /** `create_vm`. The collision policy: a VM already at the platform id is
      an error unless --force-delete is given and it carries the same name,
      in which case it is destroyed before the clone. The run sends bridge
      requests (`netCalls`) and then requests that all change the VM at the
      platform id `base + id` (`vmCalls`). */
  /** The network part of `create_vm`: the NIC loop's bridges, then one
      commit of the host's network configuration if any bridge was new. */
  method ProvideNetworks(node: ProxmoxNode, nets: seq<NetRef>, force: bool, answers: map<string, string>, comments: string)
    returns (r: Result<seq<string>>, ghost names: seq<string>, ghost netCalls: seq<Call>)
    requires node.Synced()
    modifies node`networks, node.host
    ensures node.Synced()
    ensures node.host.vms == old(node.host.vms) && node.host.order == old(node.host.order)
    ensures node.host.description == old(node.host.description)
    ensures node.host.log == old(node.host.log) + netCalls && NoneTouchVm(netCalls)
    ensures var created := Missing(old(node.networks), names);
      && (r.Err? ==> netCalls == Creations(created, comments))
      && (r.Ok? ==> ResolveNames(node.baseId, nets) == Ok(r.value) && names == r.value
                    && netCalls == Creations(created, comments) + (if created != [] then [CommitNetwork] else []))
    ensures ResolveNames(node.baseId, nets).Err? ==> r.Err?
  {
    ghost var log0 := node.host.log;
    var newNetwork;
    r, newNetwork, names := AddNetworks(node, nets, force, answers, comments);
    netCalls := Creations(Missing(old(node.networks), names), comments);
    CreationsNoneTouchVm(Missing(old(node.networks), names), comments);
    if r.Ok? && newNetwork {
      node.CommitNetworkConfig();
      NoneTouchVmAppend(netCalls, [CommitNetwork]);
      Associative(log0, netCalls, [CommitNetwork]);
      netCalls := netCalls + [CommitNetwork];
    }
  }

  method CreateVm(node: ProxmoxNode, dep: Deployment, vm: VmSpec, args: Args, answers: map<string, string>)
    returns (r: Result<()>, ghost first: nat, ghost names: seq<string>,
             ghost netCalls: seq<Call>, ghost vmCalls: seq<Call>)
    requires node.Synced() && node.host.Valid()
    modifies node`networks, node.host
    ensures node.Synced() && node.host.Valid()
    ensures node.host.log == old(node.host.log) + netCalls + vmCalls
    ensures NoneTouchVm(netCalls) && AllTo(vmCalls, HostId(node.baseId, vm.id))
    ensures var created := Missing(old(node.networks), names);
      netCalls == Creations(created, Comments(dep)) || netCalls == Creations(created, Comments(dep)) + [CommitNetwork]
    ensures ConfiguredOptions(dep, vm).Err? ==> r.Err? && netCalls == [] && vmCalls == []
    ensures ResolveNames(node.baseId, dep.globalNetworks + vm.networks).Err? ==> r.Err? && vmCalls == []
    ensures var vmid := HostId(node.baseId, vm.id);
      && (vmid in old(node.host.vms) && !args.forceDelete ==> r.Err? && vmCalls == [])
      && (vmid in old(node.host.vms) && VmName(old(node.host.vms)[vmid]) != FullName(dep, vm) ==> r.Err? && vmCalls == [])
      && (r.Ok? ==>
            && ConfiguredOptions(dep, vm).Ok?
            && FirstFree(ConfiguredOptions(dep, vm).value, first)
            && ResolveNames(node.baseId, dep.globalNetworks + vm.networks) == Ok(names)
            && var created := Missing(old(node.networks), names);
            && netCalls == Creations(created, Comments(dep)) + (if created != [] then [CommitNetwork] else [])
            && TemplateName(vm).Some?
            && FindTemplate(old(node.host.order), old(node.host.vms), TemplateName(vm).value).Some?
            && vmCalls == CreateCalls(vmid, old(node.host.vms),
                                      FindTemplate(old(node.host.order), old(node.host.vms), TemplateName(vm).value).value,
                                      node.pool, SentOptions(dep, vm, first, names, args.nicType), args.autostart))
  {
    first, names, netCalls, vmCalls := 0, [], [], [];
    var configured := ConfiguredOptions(dep, vm);
    if configured.Err? {
      return Err(configured.error), first, names, netCalls, vmCalls;
    }
    var comments := Comments(dep);
    var index := FirstFreeNet(configured.value);
    first := index;
    var resolved, resolvedNames, calls :=
      ProvideNetworks(node, dep.globalNetworks + vm.networks, args.force, answers, comments);
    names, netCalls := resolvedNames, calls;
    if resolved.Err? {
      return Err(resolved.error), first, names, netCalls, vmCalls;
    }
    var options := AttachNics(configured.value, index, resolved.value, args.nicType);
    r, vmCalls := CollideAndClone(node, dep, vm, args, options);
  }

  lemma CreationsNoneTouchVm(created: seq<string>, comments: string)
    ensures NoneTouchVm(Creations(created, comments))
  {
  }

  lemma NoneTouchVmAppend(a: seq<Call>, b: seq<Call>)
    requires NoneTouchVm(a) && NoneTouchVm(b)
    ensures NoneTouchVm(a + b)
  {
    forall j | 0 <= j < |a + b| ensures !TouchesVm((a + b)[j]) {
      if j >= |a| { assert (a + b)[j] == b[j - |a|]; }
    }
  }

  /** `vmid` is no NIC key, so the NIC loop keeps it. */
  lemma VmKeyIsNotNet(opts: Options, first: nat, names: seq<string>, nic: string)
    requires "vmid" in opts
    ensures "vmid" in Attach(opts, first, names, nic)
  {
    forall j: nat | first <= j < first + |names| ensures "vmid" != NetKey(j) {
      assert NetKey(j)[0] == 'n';
    }
    AttachFrame(opts, first, names, nic, "vmid");
  }

  /** The VM-changing requests of a successful `create_vm`: the destroy
      sequence when a VM was there, the clone, the options, and the start
      under --autostart. */
  function CreateCalls(vmid: int, vms: map<int, Vm>, templateId: int, pool: string,
                       sent: Options, autostart: bool): seq<Call>
  {
    (if vmid in vms then DestroyCalls(vmid, vms[vmid]) else []) + CloneCalls(templateId, vmid, pool, sent, autostart)
  }

  /** The requests that make the VM: the clone, its options, the start. */
  function CloneCalls(templateId: int, vmid: int, pool: string, sent: Options, autostart: bool): seq<Call> {
    [Call.Clone(templateId, vmid, pool)] + [SetConfig(vmid, sent)] + (if autostart then [Call.Start(vmid)] else [])
  }

  /** Lines 245-254 of `create_vm`: a VM already at the platform id is an
      error unless --force-delete is given and it carries the same name; then
      it is destroyed. */
  method ClearSlot(node: ProxmoxNode, dep: Deployment, vm: VmSpec, forceDelete: bool)
    returns (r: Result<()>)
    requires node.host.Valid()
    modifies node.host
    ensures node.host.Valid()
    ensures var vmid := HostId(node.baseId, vm.id);
      && (r.Ok? <==> vmid !in old(node.host.vms)
                     || (forceDelete && VmName(old(node.host.vms)[vmid]) == FullName(dep, vm)))
      && (r.Err? ==> && node.host.vms == old(node.host.vms) && node.host.order == old(node.host.order)
                     && node.host.log == old(node.host.log))
      && (r.Ok? ==> && node.host.vms == old(node.host.vms) - {vmid}
                    && node.host.order == Without(old(node.host.order), vmid)
                    && node.host.log == old(node.host.log)
                         + (if vmid in old(node.host.vms) then DestroyCalls(vmid, old(node.host.vms)[vmid]) else []))
    ensures node.host.ifaces == old(node.host.ifaces) && node.host.description == old(node.host.description)
  {
    var fullName := FullName(dep, vm);
    var present := node.Exists(vm.id);
    if !present {
      Absent(node.host.order, HostId(node.baseId, vm.id));
      return Ok(());
    }
    if !forceDelete {
      return Err(VmAlreadyExists(fullName, vm.id));
    }
    var oldName := node.GetName(vm.id);
    if oldName.value != fullName {
      return Err(NamesDoNotMatch(oldName.value));
    }
    r := node.Destroy(vm.id);
  }

  /** Taking out an id that is not listed changes nothing. */
  lemma {:induction false} Absent(order: seq<int>, id: int)
    requires id !in order
    ensures Without(order, id) == order
    decreases |order|
  {
    if order != [] {
      Absent(order[1..], id);
      assert [order[0]] + order[1..] == order;
    }
  }

  /** Every call is addressed to the VM `vmid`. */
  predicate AllTo(calls: seq<Call>, vmid: int) {
    forall j :: 0 <= j < |calls| ==> TouchesVm(calls[j]) && Target(calls[j]) == vmid
  }

  lemma AllToAppend(a: seq<Call>, b: seq<Call>, vmid: int)
    requires AllTo(a, vmid) && AllTo(b, vmid)
    ensures AllTo(a + b, vmid)
  {
    forall j | 0 <= j < |a + b| ensures TouchesVm((a + b)[j]) && Target((a + b)[j]) == vmid {
      if j >= |a| { assert (a + b)[j] == b[j - |a|]; }
    }
  }

  lemma DestroyCallsTo(vmid: int, vm: Vm)
    ensures AllTo(DestroyCalls(vmid, vm), vmid)
  {
    var stops := Stops(vmid, StopsSent(vm, StopBudget));
    StopsAll(vmid, StopsSent(vm, StopBudget));
    assert AllTo(stops, vmid);
    AllToAppend(stops, [Delete(vmid)], vmid);
  }

  /** Lines 241-261 of `create_vm`, once the options are complete. Every
      request it makes changes the VM at the platform id; `sent` is what it
      sent. */
  method CollideAndClone(node: ProxmoxNode, dep: Deployment, vm: VmSpec, args: Args, options: Options)
    returns (r: Result<()>, ghost sent: seq<Call>)
    requires node.Synced() && node.host.Valid()
    modifies node.host
    ensures node.Synced() && node.host.Valid()
    ensures var vmid := HostId(node.baseId, vm.id);
      && node.host.log == old(node.host.log) + sent
      && AllTo(sent, vmid)
      && (vmid in old(node.host.vms) && !args.forceDelete ==> r.Err? && sent == [])
      && (vmid in old(node.host.vms) && VmName(old(node.host.vms)[vmid]) != FullName(dep, vm) ==> r.Err? && sent == [])
      && (r.Ok? ==>
            && "vmid" in options
            && TemplateName(vm).Some?
            && FindTemplate(old(node.host.order), old(node.host.vms), TemplateName(vm).value).Some?
            && sent == CreateCalls(vmid, old(node.host.vms),
                                   FindTemplate(old(node.host.order), old(node.host.vms), TemplateName(vm).value).value,
                                   node.pool, options - {"vmid"}, args.autostart))
  {
    sent := [];
    var vmid := HostId(node.baseId, vm.id);
    var template := TemplateName(vm);
    if template.None? {
      return Err(NoTemplateName(FullName(dep, vm))), sent;
    }
    var templateId := FindTemplate(node.host.order, node.host.vms, template.value);
    if templateId.None? {
      return Err(TemplateNotFound(template.value)), sent;
    }
    var cleared := ClearSlot(node, dep, vm, args.forceDelete);
    if cleared.Err? {
      return Err(cleared.error), sent;
    }
    if vmid in old(node.host.vms) {
      sent := DestroyCalls(vmid, old(node.host.vms)[vmid]);
      DestroyCallsTo(vmid, old(node.host.vms)[vmid]);
    }
    ghost var destroyed := sent;
    ghost var more;
    r, more := CloneAndConfigure(node, templateId.value, vm.id, options, args.autostart);
    AllToAppend(destroyed, more, vmid);
    Associative(old(node.host.log), destroyed, more);
    sent := destroyed + more;
  }

  /** Lines 255-261 of `create_vm`: the clone, its options, and the start
      when --autostart is given. */
  method CloneAndConfigure(node: ProxmoxNode, templateId: int, id: int, options: Options, autostart: bool)
    returns (r: Result<()>, ghost sent: seq<Call>)
    requires node.host.Valid()
    modifies node.host
    ensures node.host.Valid()
    ensures node.host.ifaces == old(node.host.ifaces)
    ensures var vmid := HostId(node.baseId, id);
      && node.host.log == old(node.host.log) + sent
      && AllTo(sent, vmid)
      && (r.Ok? <==> templateId in old(node.host.vms) && vmid !in old(node.host.vms) && "vmid" in options)
      && (r.Ok? ==> sent == CloneCalls(templateId, vmid, node.pool, options - {"vmid"}, autostart))
  {
    sent := [];
    ghost var log0 := node.host.log;
    var vmid := HostId(node.baseId, id);
    var cloned := node.Clone(templateId, id);
    if cloned.Err? {
      return Err(cloned.error), sent;
    }
    sent := [Call.Clone(templateId, vmid, node.pool)];
    var written := node.SetOptions(id, options);
    if written.Err? {
      return Err(written.error), sent;
    }
    var configure := [SetConfig(vmid, options - {"vmid"})];
    Associative(log0, sent, configure);
    AllToAppend(sent, configure, vmid);
    sent := sent + configure;
    var start: seq<Call> := [];
    if autostart {
      var started := node.Start(id);
      start := [Call.Start(vmid)];
    }
    Associative(log0, sent, start);
    AllToAppend(sent, start, vmid);
    sent := sent + start;
    r := Ok(());
  }
}
