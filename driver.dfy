/** `main`: resolving the deployment's slot on the host, the `--range`,
    positional-name and `--exclude` filters, the loop that creates or removes
    the selected VMs, and `--cleanup-networks`. */
module Driver {
  import opened Wrappers
  import opened Text
  import opened Registry
  import opened Naming
  import opened VmOptions
  import opened Platform
  import opened Node
  import opened Provision

  // ---------------------------------------------------------------------
  // The deployment's slot (lines 301-320)

  /** The records `get_node_deployments` reads: none when the description
      field holds no deployment list. */
  function Records(description: Option<seq<Record>>): seq<Record> {
    if description.Some? then description.value else []
  }

  /** The registry write `main` makes for a resolution, if any. */
  function RegistryCalls(res: Resolution): seq<Call> {
    if res.update.Some? then [SetDeployments(res.update.value)] else []
  }

  /** Lines 301-320: the slot of the deployment's name, allocated and written
      back to the host on first sight (unless --remove is given, which makes
      an unknown name an error); the node's base id becomes the slot's. */
  method ResolveSlot(node: ProxmoxNode, name: string, remove: bool) returns (r: Result<Resolution>)
    requires node.host.Valid()
    modifies node`baseId, node.host
    ensures node.host.Valid()
    ensures r == Resolve(Records(old(node.host.description)), name, remove)
    ensures r.Err? ==> && node.baseId == old(node.baseId) && node.host.log == old(node.host.log)
                       && node.host.description == old(node.host.description)
    ensures r.Ok? ==> && node.baseId == BaseId(r.value.slot)
                      && node.host.log == old(node.host.log) + RegistryCalls(r.value)
                      && (r.value.update.Some? ==> node.host.description == r.value.update)
                      && (r.value.update.None? ==> node.host.description == old(node.host.description))
    ensures node.host.vms == old(node.host.vms) && node.host.order == old(node.host.order)
    ensures node.host.ifaces == old(node.host.ifaces) && node.networks == old(node.networks)
  {
    var records := node.GetNodeDeployments();
    r := Resolve(records, name, remove);
    if r.Err? {
      return;
    }
    if r.value.update.Some? {
      node.SetNodeDeployments(r.value.update.value);
    }
    node.SetBaseId(BaseId(r.value.slot));
  }

  // ---------------------------------------------------------------------
  // `--range` (lines 325-327)

  /** A Python `range(start, stop, step)`; `MakeRange` only builds ranges
      with a step other than 0. */
  datatype Range = Range(start: int, stop: int, step: int)

  /** `int(e) for e in text.split(',')`; None where a piece is no integer. */
  function ParseInts(pieces: seq<string>): (r: Option<seq<int>>)
    ensures r.Some? ==> |r.value| == |pieces|
    ensures r.Some? ==> forall k :: 0 <= k < |pieces| ==> ParseInt(pieces[k]) == Some(r.value[k])
    ensures r.None? ==> exists k :: 0 <= k < |pieces| && ParseInt(pieces[k]).None?
    decreases |pieces|
  {
    if pieces == [] then Some([])
    else
      match (ParseInt(pieces[0]), ParseInts(pieces[1..]))
      case (Some(x), Some(xs)) => Some([x] + xs)
      case (None, _) => None
      case (_, None) => None
  }

  /** `range(*ints)`: one argument is the stop, two are start and stop,
      three add the step; any other count, and a step of 0, is an error. */
  function MakeRange(args: seq<int>): (r: Result<Range>)
    ensures r.Ok? <==> 1 <= |args| <= 3 && (|args| == 3 ==> args[2] != 0)
    ensures r.Ok? ==> r.value.step != 0
    ensures r.Ok? && |args| == 1 ==> r.value == Range(0, args[0], 1)
    ensures r.Ok? && |args| >= 2 ==> r.value.start == args[0] && r.value.stop == args[1]
    ensures r.Ok? && |args| == 2 ==> r.value.step == 1
    ensures r.Ok? && |args| == 3 ==> r.value.step == args[2]
    ensures r.Err? ==> r.error == BadRange
  {
    if |args| == 1 then Ok(Range(0, args[0], 1))
    else if |args| == 2 then Ok(Range(args[0], args[1], 1))
    else if |args| == 3 && args[2] != 0 then Ok(Range(args[0], args[1], args[2]))
    else Err(BadRange)
  }

  /** Lines 325-327: no filter when --range is absent or empty; otherwise
      the range its comma-separated integers describe. A piece that is no
      integer is an error like a bad range. */
  function RangeFilter(text: string): (r: Result<Option<Range>>)
    ensures text == "" ==> r == Ok(None)
    ensures r.Ok? && r.value.Some? ==> r.value.value.step != 0
  {
    if text == "" then Ok(None)
    else
      match ParseInts(Split(text, ','))
      case None => Err(BadRange)
      case Some(xs) =>
        match MakeRange(xs)
        case Err(e) => Err(e)
        case Ok(rng) => Ok(Some(rng))
  }

  /** `len(range)`. The range is truthy exactly when this is not 0. */
  function Length(r: Range): nat
    requires r.step != 0
  {
    if r.step > 0 then (if r.start < r.stop then (r.stop - r.start - 1) / r.step + 1 else 0)
    else (if r.start > r.stop then (r.start - r.stop - 1) / (-r.step) + 1 else 0)
  }

  /** `x in range`, the test Python evaluates without listing the range. */
  predicate Contains(r: Range, x: int)
    requires r.step != 0
  {
    if r.step > 0 then r.start <= x < r.stop && (x - r.start) % r.step == 0
    else r.stop < x <= r.start && (r.start - x) % (-r.step) == 0
  }

  /** The range's elements by Python's definition: `start + step * i` for
      `0 <= i < len(range)`. */
  predicate Element(r: Range, x: int, i: nat)
    requires r.step != 0
  {
    i < Length(r) && x == r.start + r.step * i
  }

  /** Dividing by a positive number keeps the order. */
  lemma DivMonotone(a: int, b: int, d: int)
    requires 0 <= a <= b && d > 0
    ensures a / d <= b / d
  {
    assert d * (a / d) <= a && b < d * (b / d + 1);
    MulCancel(d, a / d, b / d + 1);
  }

  /** A positive factor can be cancelled from a strict order. */
  lemma MulCancel(d: int, a: int, b: int)
    requires d > 0 && d * a < d * b
    ensures a < b
  {
    if a >= b {
      MulMonotone(d, b, a);
    }
  }

  /** A positive factor keeps the order. */
  lemma MulMonotone(d: int, a: int, b: int)
    requires d > 0 && a <= b
    ensures d * a <= d * b
  {
    assert d * b - d * a == d * (b - a);
  }

  /** A multiple of `d` leaves no remainder, and its quotient is the factor. */
  lemma MultipleOf(i: nat, d: int)
    requires d > 0
    ensures (d * i) % d == 0 && (d * i) / d == i
  {
    var q, m := (d * i) / d, (d * i) % d;
    assert d * i == d * q + m && 0 <= m < d;
    assert d * (i - q) == m;
    if i - q >= 1 {
      MulMonotone(d, 1, i - q);
    } else if i - q <= -1 {
      MulMonotone(d, i - q, -1);
    }
  }

  /** A member of a range with a positive step is the element at the
      quotient of its distance from the start. */
  lemma UpElement(r: Range, x: int)
    requires r.step > 0 && Contains(r, x)
    ensures Element(r, x, (x - r.start) / r.step)
  {
    var d, a := r.step, x - r.start;
    assert a == d * (a / d) + a % d;
    DivMonotone(a, r.stop - r.start - 1, d);
  }

  /** An element of a range with a positive step is a member. */
  lemma UpContains(r: Range, x: int, i: nat)
    requires r.step > 0 && Element(r, x, i)
    ensures Contains(r, x)
  {
    var d := r.step;
    var q := (r.stop - r.start - 1) / d;
    assert r.stop - r.start - 1 == d * q + (r.stop - r.start - 1) % d;
    MulMonotone(d, i, q);
    MultipleOf(i, d);
    assert x - r.start == d * i;
  }

  /** The membership test for a positive step agrees with the definition. */
  lemma ContainsUp(r: Range, x: int)
    requires r.step > 0
    ensures Contains(r, x) <==> exists i: nat :: Element(r, x, i)
  {
    if Contains(r, x) {
      UpElement(r, x);
    }
    if i: nat :| Element(r, x, i) {
      UpContains(r, x, i);
    }
  }

  /** A range with a negative step is the range with every sign flipped,
      read backwards. */
  function Mirror(r: Range): Range {
    Range(-r.start, -r.stop, -r.step)
  }

  lemma MirrorDown(r: Range, x: int)
    requires r.step < 0
    ensures Length(Mirror(r)) == Length(r)
    ensures Contains(r, x) <==> Contains(Mirror(r), -x)
    ensures forall i: nat :: Element(r, x, i) <==> Element(Mirror(r), -x, i)
  {
    forall i: nat ensures Element(r, x, i) <==> Element(Mirror(r), -x, i) {
      assert Mirror(r).step * i == -(r.step * i);
    }
  }

  /** `x in range(...)` holds exactly for the range's elements, for either
      direction of the step. */
  lemma ContainsElements(r: Range, x: int)
    requires r.step != 0
    ensures Contains(r, x) <==> exists i: nat :: Element(r, x, i)
  {
    if r.step > 0 {
      ContainsUp(r, x);
    } else {
      MirrorDown(r, x);
      ContainsUp(Mirror(r), -x);
      if Contains(r, x) {
        var i: nat :| Element(Mirror(r), -x, i);
        assert Element(r, x, i);
      }
      if i: nat :| Element(r, x, i) {
        assert Element(Mirror(r), -x, i);
      }
    }
  }

  // ---------------------------------------------------------------------
  // Which VMs a run touches (lines 329-340)

  /** A VM entry passes the filters: it lies in the range (a range without
      elements filters nothing), its name is listed when names are given,
      and it is not excluded. */
  predicate Selected(range: Option<Range>, allow: seq<string>, exclude: seq<string>, vm: VmSpec)
    requires range.Some? ==> range.value.step != 0
  {
    && !(range.Some? && Length(range.value) > 0 && !Contains(range.value, vm.id))
    && (allow == [] || vm.name in allow)
    && vm.name !in exclude
  }

  /** The filters in terms of the range's elements by Python's definition:
      an exclusion always wins, a list of names restricts, and a non-empty
      range admits exactly its elements. */
  lemma SelectedElements(range: Option<Range>, allow: seq<string>, exclude: seq<string>, vm: VmSpec)
    requires range.Some? ==> range.value.step != 0
    ensures Selected(range, allow, exclude, vm) <==>
              && (range.None? || Length(range.value) == 0 || exists i: nat :: Element(range.value, vm.id, i))
              && (allow == [] || vm.name in allow)
              && vm.name !in exclude
  {
    if range.Some? {
      ContainsElements(range.value, vm.id);
    }
  }

  /** The platform ids of the selected entries among `vms`. */
  function SelectedIds(base: int, vms: seq<VmSpec>, range: Option<Range>, allow: seq<string>, exclude: seq<string>): set<int>
    requires range.Some? ==> range.value.step != 0
    decreases |vms|
  {
    if vms == [] then {}
    else
      var n := |vms| - 1;
      SelectedIds(base, vms[..n], range, allow, exclude)
        + (if Selected(range, allow, exclude, vms[n]) then {HostId(base, vms[n].id)} else {})
  }

  /** An id is selected exactly when some selected entry has it. */
  lemma {:induction false} SelectedIdsMember(base: int, vms: seq<VmSpec>, range: Option<Range>, allow: seq<string>, exclude: seq<string>, x: int)
    requires range.Some? ==> range.value.step != 0
    ensures x in SelectedIds(base, vms, range, allow, exclude) <==>
              exists m :: 0 <= m < |vms| && Selected(range, allow, exclude, vms[m]) && x == HostId(base, vms[m].id)
    decreases |vms|
  {
    if vms != [] {
      var n := |vms| - 1;
      var init := vms[..n];
      SelectedIdsMember(base, init, range, allow, exclude, x);
      if m :| 0 <= m < |init| && Selected(range, allow, exclude, init[m]) && x == HostId(base, init[m].id) {
        assert vms[m] == init[m];
      }
      if m :| 0 <= m < |vms| && Selected(range, allow, exclude, vms[m]) && x == HostId(base, vms[m].id) {
        if m < n {
          assert init[m] == vms[m];
        }
      }
    }
  }

  lemma SelectedIdsStep(base: int, vms: seq<VmSpec>, range: Option<Range>, allow: seq<string>, exclude: seq<string>, k: nat)
    requires range.Some? ==> range.value.step != 0
    requires k < |vms|
    ensures SelectedIds(base, vms[..k + 1], range, allow, exclude)
            == SelectedIds(base, vms[..k], range, allow, exclude)
               + (if Selected(range, allow, exclude, vms[k]) then {HostId(base, vms[k].id)} else {})
  {
    PrefixOfPrefix(vms, k, k + 1);
  }

  /** Every VM-changing call is addressed to `vmid`. */
  predicate OnlyTo(calls: seq<Call>, vmid: int) {
    forall j :: 0 <= j < |calls| && TouchesVm(calls[j]) ==> Target(calls[j]) == vmid
  }

  /** Every VM-changing call is addressed to one of `ids`. */
  predicate OnlyIn(calls: seq<Call>, ids: set<int>) {
    forall j :: 0 <= j < |calls| && TouchesVm(calls[j]) ==> Target(calls[j]) in ids
  }

  /** Some call clones a template to `vmid`. */
  predicate Clones(calls: seq<Call>, vmid: int) {
    exists j :: 0 <= j < |calls| && calls[j].Clone? && calls[j].newId == vmid
  }

  lemma OnlyToJoin(a: seq<Call>, b: seq<Call>, vmid: int)
    requires NoneTouchVm(a) && AllTo(b, vmid)
    ensures OnlyTo(a + b, vmid)
  {
    forall j | 0 <= j < |a + b| && TouchesVm((a + b)[j]) ensures Target((a + b)[j]) == vmid {
      assert (a + b)[j] == b[j - |a|];
    }
  }

  lemma OnlyInMono(a: seq<Call>, ids: set<int>, more: set<int>)
    requires OnlyIn(a, ids) && ids <= more
    ensures OnlyIn(a, more)
  {
  }

  lemma ClonesKept(a: seq<Call>, b: seq<Call>, vmid: int)
    requires Clones(a, vmid) || Clones(b, vmid)
    ensures Clones(a + b, vmid)
  {
    if Clones(a, vmid) {
      var j :| 0 <= j < |a| && a[j].Clone? && a[j].newId == vmid;
      assert (a + b)[j] == a[j];
    } else {
      var j :| 0 <= j < |b| && b[j].Clone? && b[j].newId == vmid;
      assert (a + b)[|a| + j] == b[j];
    }
  }

  /** A successful `create_vm` clones the VM. */
  lemma CreateCallsClone(vmid: int, vms: map<int, Vm>, templateId: int, pool: string, sent: Options, autostart: bool)
    ensures Clones(CreateCalls(vmid, vms, templateId, pool, sent, autostart), vmid)
  {
    var clone := CloneCalls(templateId, vmid, pool, sent, autostart);
    assert clone[0] == Call.Clone(templateId, vmid, pool);
    assert Clones(clone, vmid);
    ClonesKept(if vmid in vms then DestroyCalls(vmid, vms[vmid]) else [], clone, vmid);
  }

  // ---------------------------------------------------------------------
  // The VM loop (lines 329-348)

  /** Lines 341-348 for one selected entry: under --dry-run nothing is sent;
      under --remove the VM is destroyed, otherwise it is created. */
  method ProcessOne(node: ProxmoxNode, dep: Deployment, vm: VmSpec, args: Args, answers: map<string, string>)
    returns (r: Result<()>, ghost sent: seq<Call>)
    requires node.Synced() && node.host.Valid()
    modifies node`networks, node.host
    ensures node.Synced() && node.host.Valid()
    ensures node.host.log == old(node.host.log) + sent
    ensures OnlyTo(sent, HostId(node.baseId, vm.id))
    ensures args.dryRun ==> && r.Ok? && sent == [] && node.host.vms == old(node.host.vms)
                            && node.host.order == old(node.host.order) && node.host.ifaces == old(node.host.ifaces)
    ensures args.remove ==> node.host.ifaces == old(node.host.ifaces)
    ensures args.remove && !args.dryRun ==> var vmid := HostId(node.baseId, vm.id);
      && (r.Ok? <==> vmid in old(node.host.vms))
      && (r.Ok? ==> node.host.vms == old(node.host.vms) - {vmid} && sent == DestroyCalls(vmid, old(node.host.vms)[vmid]))
      && (r.Err? ==> node.host.vms == old(node.host.vms) && sent == [])
    ensures !args.remove && !args.dryRun && r.Ok? ==> Clones(sent, HostId(node.baseId, vm.id))
  {
    sent := [];
    var vmid := HostId(node.baseId, vm.id);
    if args.dryRun {
      return Ok(()), sent;
    }
    if args.remove {
      r := node.Destroy(vm.id);
      if r.Ok? {
        sent := DestroyCalls(vmid, old(node.host.vms)[vmid]);
        DestroyCallsTo(vmid, old(node.host.vms)[vmid]);
      }
    } else {
      ghost var log0 := node.host.log;
      var created, first, names, netCalls, vmCalls := CreateVm(node, dep, vm, args, answers);
      r := created;
      Associative(log0, netCalls, vmCalls);
      OnlyToJoin(netCalls, vmCalls, vmid);
      if r.Ok? {
        CreateCallsClone(vmid, old(node.host.vms),
                         FindTemplate(old(node.host.order), old(node.host.vms), TemplateName(vm).value).value,
                         node.pool, SentOptions(dep, vm, first, names, args.nicType), args.autostart);
        ClonesKept(netCalls, vmCalls, vmid);
      }
      sent := netCalls + vmCalls;
    }
  }

  /** Lines 330-348 for the `k`-th entry: skipped when the filters reject
      it, processed otherwise. */
  method Visit(node: ProxmoxNode, dep: Deployment, range: Option<Range>, args: Args, answers: map<string, string>, k: nat)
    returns (r: Result<()>, ghost sent: seq<Call>)
    requires node.Synced() && node.host.Valid()
    requires range.Some? ==> range.value.step != 0
    requires k < |dep.vms|
    modifies node`networks, node.host
    ensures node.Synced() && node.host.Valid()
    ensures node.host.log == old(node.host.log) + sent
    ensures var vm := dep.vms[k];
      var ids := if Selected(range, args.allow, args.exclude, vm) then {HostId(node.baseId, vm.id)} else {};
      && OnlyIn(sent, ids)
      && (!Selected(range, args.allow, args.exclude, vm) || args.dryRun ==>
            && r.Ok? && sent == [] && node.host.vms == old(node.host.vms)
            && node.host.order == old(node.host.order) && node.host.ifaces == old(node.host.ifaces))
      && (args.remove ==> node.host.ifaces == old(node.host.ifaces))
      && (args.remove && !args.dryRun && r.Ok? ==> node.host.vms == old(node.host.vms) - ids)
      && (!args.remove && !args.dryRun && r.Ok? && Selected(range, args.allow, args.exclude, vm) ==>
            Clones(sent, HostId(node.baseId, vm.id)))
  {
    var vm := dep.vms[k];
    if !Selected(range, args.allow, args.exclude, vm) {
      return Ok(()), [];
    }
    r, sent := ProcessOne(node, dep, vm, args, answers);
  }

  /** Every selected entry among the first `k` was cloned. */
  predicate ClonedUpTo(calls: seq<Call>, base: int, vms: seq<VmSpec>, range: Option<Range>, allow: seq<string>, exclude: seq<string>, k: nat)
    requires range.Some? ==> range.value.step != 0
    requires k <= |vms|
  {
    forall m :: 0 <= m < k && Selected(range, allow, exclude, vms[m]) ==> Clones(calls, HostId(base, vms[m].id))
  }

  lemma ClonedStep(calls: seq<Call>, sent: seq<Call>, base: int, vms: seq<VmSpec>,
                   range: Option<Range>, allow: seq<string>, exclude: seq<string>, k: nat)
    requires range.Some? ==> range.value.step != 0
    requires k < |vms|
    requires ClonedUpTo(calls, base, vms, range, allow, exclude, k)
    requires Selected(range, allow, exclude, vms[k]) ==> Clones(sent, HostId(base, vms[k].id))
    ensures ClonedUpTo(calls + sent, base, vms, range, allow, exclude, k + 1)
  {
    forall m | 0 <= m < k + 1 && Selected(range, allow, exclude, vms[m])
      ensures Clones(calls + sent, HostId(base, vms[m].id))
    {
      ClonesKept(calls, sent, HostId(base, vms[m].id));
    }
  }

  lemma OnlyInUnion(a: seq<Call>, b: seq<Call>, ids: set<int>, more: set<int>)
    requires OnlyIn(a, ids) && OnlyIn(b, more)
    ensures OnlyIn(a + b, ids + more)
  {
    forall j | 0 <= j < |a + b| && TouchesVm((a + b)[j]) ensures Target((a + b)[j]) in ids + more {
      if j >= |a| {
        assert (a + b)[j] == b[j - |a|];
      }
    }
  }

  /** What the loop of lines 329-348 keeps about the first `k` entries
      whatever their outcome: the node stays consistent, everything sent is
      in the log and touches only selected VMs, a dry run changes nothing
      and a removal leaves the interfaces alone. */
  ghost predicate Progress(node: ProxmoxNode, dep: Deployment, range: Option<Range>, args: Args, base: int,
                           log0: seq<Call>, vms0: map<int, Vm>, order0: seq<int>, ifaces0: seq<string>,
                           calls: seq<Call>, k: nat)
    reads node, node.host
    requires range.Some? ==> range.value.step != 0
    requires k <= |dep.vms|
  {
    && node.Synced() && node.host.Valid() && node.baseId == base
    && node.host.log == log0 + calls
    && OnlyIn(calls, SelectedIds(base, dep.vms[..k], range, args.allow, args.exclude))
    && (args.dryRun ==> && calls == [] && node.host.vms == vms0
                        && node.host.order == order0 && node.host.ifaces == ifaces0)
    && (args.remove ==> node.host.ifaces == ifaces0)
  }

  /** What the loop keeps while every entry so far succeeded: a removal has
      destroyed exactly the selected VMs, a creation has cloned each of them. */
  ghost predicate Complete(node: ProxmoxNode, dep: Deployment, range: Option<Range>, args: Args, base: int,
                           vms0: map<int, Vm>, calls: seq<Call>, k: nat)
    reads node.host
    requires range.Some? ==> range.value.step != 0
    requires k <= |dep.vms|
  {
    && (args.remove && !args.dryRun ==>
          node.host.vms == vms0 - SelectedIds(base, dep.vms[..k], range, args.allow, args.exclude))
    && (!args.remove && !args.dryRun ==> ClonedUpTo(calls, base, dep.vms, range, args.allow, args.exclude, k))
  }

  /** One turn of the loop of lines 329-348: the `k`-th entry is visited and
      both loop facts move on to `k + 1` (the second only on success). */
  method Advance(node: ProxmoxNode, dep: Deployment, range: Option<Range>, args: Args, answers: map<string, string>,
                 k: nat, ghost log0: seq<Call>, ghost vms0: map<int, Vm>, ghost order0: seq<int>,
                 ghost ifaces0: seq<string>, ghost calls: seq<Call>)
    returns (r: Result<()>, ghost next: seq<Call>)
    requires range.Some? ==> range.value.step != 0
    requires k < |dep.vms|
    requires Progress(node, dep, range, args, node.baseId, log0, vms0, order0, ifaces0, calls, k)
    requires Complete(node, dep, range, args, node.baseId, vms0, calls, k)
    modifies node`networks, node.host
    ensures Progress(node, dep, range, args, node.baseId, log0, vms0, order0, ifaces0, next, k + 1)
    ensures r.Ok? ==> Complete(node, dep, range, args, node.baseId, vms0, next, k + 1)
    ensures args.dryRun ==> r.Ok?
  {
    var base := node.baseId;
    ghost var before := SelectedIds(base, dep.vms[..k], range, args.allow, args.exclude);
    ghost var ids := if Selected(range, args.allow, args.exclude, dep.vms[k]) then {HostId(base, dep.vms[k].id)} else {};
    SelectedIdsStep(base, dep.vms, range, args.allow, args.exclude, k);
    ghost var sent;
    r, sent := Visit(node, dep, range, args, answers, k);
    Associative(log0, calls, sent);
    OnlyInUnion(calls, sent, before, ids);
    if !args.remove && !args.dryRun && r.Ok? {
      ClonedStep(calls, sent, base, dep.vms, range, args.allow, args.exclude, k);
    }
    if args.remove && !args.dryRun && r.Ok? {
      MinusSet(vms0, before, ids);
    }
    next := calls + sent;
  }

  /** Lines 329-348: every entry of the deployment, in order; entries the
      filters reject are skipped, the others removed or created. The run
      stops at the first error. */
  method ProcessVms(node: ProxmoxNode, dep: Deployment, range: Option<Range>, args: Args, answers: map<string, string>)
    returns (r: Result<()>, ghost calls: seq<Call>)
    requires node.Synced() && node.host.Valid()
    requires range.Some? ==> range.value.step != 0
    modifies node`networks, node.host
    ensures node.Synced() && node.host.Valid()
    ensures node.host.log == old(node.host.log) + calls
    ensures OnlyIn(calls, SelectedIds(node.baseId, dep.vms, range, args.allow, args.exclude))
    ensures args.dryRun ==> && r.Ok? && calls == [] && node.host.vms == old(node.host.vms)
                            && node.host.order == old(node.host.order) && node.host.ifaces == old(node.host.ifaces)
    ensures args.remove ==> node.host.ifaces == old(node.host.ifaces)
    ensures args.remove && !args.dryRun && r.Ok? ==>
              node.host.vms == old(node.host.vms) - SelectedIds(node.baseId, dep.vms, range, args.allow, args.exclude)
    ensures !args.remove && !args.dryRun && r.Ok? ==>
              ClonedUpTo(calls, node.baseId, dep.vms, range, args.allow, args.exclude, |dep.vms|)
  {
    calls := [];
    ghost var log0, vms0, order0, ifaces0 := node.host.log, node.host.vms, node.host.order, node.host.ifaces;
    var k := 0;
    SliceZero(dep.vms);
    while k < |dep.vms|
      invariant 0 <= k <= |dep.vms|
      invariant Progress(node, dep, range, args, old(node.baseId), log0, vms0, order0, ifaces0, calls, k)
      invariant Complete(node, dep, range, args, old(node.baseId), vms0, calls, k)
    {
      var one;
      one, calls := Advance(node, dep, range, args, answers, k, log0, vms0, order0, ifaces0, calls);
      if one.Err? {
        SelectedIdsPrefix(node.baseId, dep.vms, range, args.allow, args.exclude, k + 1);
        OnlyInMono(calls, SelectedIds(node.baseId, dep.vms[..k + 1], range, args.allow, args.exclude),
                   SelectedIds(node.baseId, dep.vms, range, args.allow, args.exclude));
        return one, calls;
      }
      k := k + 1;
    }
    PrefixAll(dep.vms);
    r := Ok(());
  }

  lemma MinusSet<K, V>(m: map<K, V>, a: set<K>, b: set<K>)
    ensures m - a - b == m - (a + b)
  {
  }

  /** The entries of a prefix select no id the whole list does not. */
  lemma SelectedIdsPrefix(base: int, vms: seq<VmSpec>, range: Option<Range>, allow: seq<string>, exclude: seq<string>, k: nat)
    requires range.Some? ==> range.value.step != 0
    requires k <= |vms|
    ensures SelectedIds(base, vms[..k], range, allow, exclude) <= SelectedIds(base, vms, range, allow, exclude)
  {
    forall x | x in SelectedIds(base, vms[..k], range, allow, exclude)
      ensures x in SelectedIds(base, vms, range, allow, exclude)
    {
      SelectedIdsMember(base, vms[..k], range, allow, exclude, x);
      var m :| 0 <= m < k && Selected(range, allow, exclude, vms[..k][m]) && x == HostId(base, vms[..k][m].id);
      assert vms[..k][m] == vms[m];
      SelectedIdsMember(base, vms, range, allow, exclude, x);
    }
  }

  // ---------------------------------------------------------------------
  // --cleanup-networks (lines 290-299)

  /** A bridge is unbound exactly when the host has it and no listed VM's
      `net*` options name it. */
  lemma UnboundUnused(networks: seq<string>, order: seq<int>, vms: map<int, Vm>, n: string)
    requires forall i :: 0 <= i < |order| ==> order[i] in vms
    ensures n in Unbound(networks, BoundOnHost(order, vms)) <==>
              n in networks && forall i :: 0 <= i < |order| ==> !Binds(vms[order[i]].config, n)
  {
    BoundOnHostMember(order, vms, n);
  }

  /** The operator agrees to the deletion (or --force answers for them). */
  predicate Approved(force: bool, answers: map<string, string>, n: string) {
    Confirm(force, Answer(answers, n)) == Ok(true)
  }

  /** One delete request per bridge, in order. */
  function Deletions(names: seq<string>): (r: seq<Call>)
    ensures |r| == |names|
    decreases |names|
  {
    if names == [] then []
    else Deletions(names[..|names| - 1]) + [DeleteBridge(names[|names| - 1])]
  }

  lemma DeletionsAppend(names: seq<string>, n: string)
    ensures Deletions(names + [n]) == Deletions(names) + [DeleteBridge(n)]
  {
    assert (names + [n])[..|names|] == names;
  }

  lemma DeletionsNoneTouchVm(names: seq<string>)
    ensures NoneTouchVm(Deletions(names))
  {
    forall j | 0 <= j < |names| ensures !TouchesVm(Deletions(names)[j]) {
      DeletionsIndex(names, j);
    }
  }

  lemma {:induction false} DeletionsIndex(names: seq<string>, j: nat)
    requires j < |names|
    ensures Deletions(names)[j] == DeleteBridge(names[j])
    decreases |names|
  {
    var init := names[..|names| - 1];
    if j < |init| {
      DeletionsIndex(init, j);
      assert init[j] == names[j];
    }
  }

  /** The interface list after one delete request per bridge, in order. */
  function RemoveAll(ifaces: seq<string>, names: seq<string>): seq<string>
    decreases |names|
  {
    if names == [] then ifaces
    else Remove(RemoveAll(ifaces, names[..|names| - 1]), names[|names| - 1])
  }

  lemma RemoveAllAppend(ifaces: seq<string>, names: seq<string>, n: string)
    ensures RemoveAll(ifaces, names + [n]) == Remove(RemoveAll(ifaces, names), n)
  {
    assert (names + [n])[..|names|] == names;
  }

  /** The interfaces left are the ones not deleted. */
  lemma {:induction false} RemoveAllMember(ifaces: seq<string>, names: seq<string>, x: string)
    ensures x in RemoveAll(ifaces, names) <==> x in ifaces && x !in names
    decreases |names|
  {
    if names != [] {
      var init := names[..|names| - 1];
      RemoveAllMember(ifaces, init, x);
      assert names == init + [names[|names| - 1]];
    }
  }

  /** The bridges the cleanup loop has dealt with: a delete request went
      out, once, for exactly the approved ones (none under --dry-run), and
      without --force or --dry-run each of them had an answer. */
  predicate Handled(done: set<string>, deleted: seq<string>, force: bool, dryRun: bool, answers: map<string, string>) {
    && Unique(deleted)
    && (forall n :: n in deleted ==> n in done && !dryRun && Approved(force, answers, n))
    && (forall n :: n in done ==> (n in deleted <==> !dryRun && Approved(force, answers, n)))
    && (!force && !dryRun ==> forall n :: n in done ==> n in answers)
  }

  lemma HandledStep(done: set<string>, deleted: seq<string>, n: string, went: bool,
                    force: bool, dryRun: bool, answers: map<string, string>)
    requires Handled(done, deleted, force, dryRun, answers) && n !in done
    requires went <==> !dryRun && Approved(force, answers, n)
    requires !force && !dryRun ==> n in answers
    ensures Handled(done + {n}, if went then deleted + [n] else deleted, force, dryRun, answers)
  {
    if went {
      UniqueSnoc(deleted, n);
    }
  }

  /** Moving one element from the part to do to the part done. */
  lemma Partition<T>(done: set<T>, todo: set<T>, all: set<T>, x: T)
    requires done + todo == all && done !! todo && x in todo
    ensures (done + {x}) + (todo - {x}) == all && (done + {x}) !! (todo - {x}) && x !in done
  {
  }

  /** One round of the cleanup loop: the question unless --force or
      --dry-run is given, then `delete_network`. The result tells whether a
      delete request went out. */
  method CleanupOne(node: ProxmoxNode, n: string, force: bool, dryRun: bool, answers: map<string, string>)
    returns (r: Result<bool>)
    modifies node.host
    ensures r.Err? <==> !force && !dryRun && n !in answers
    ensures r.Ok? ==> (r.value <==> !dryRun && Approved(force, answers, n))
    ensures r.Ok? && r.value ==> && node.host.ifaces == Remove(old(node.host.ifaces), n)
                                 && node.host.log == old(node.host.log) + [DeleteBridge(n)]
    ensures !(r.Ok? && r.value) ==> node.host.ifaces == old(node.host.ifaces) && node.host.log == old(node.host.log)
    ensures node.host.vms == old(node.host.vms) && node.host.order == old(node.host.order)
    ensures node.host.description == old(node.host.description)
  {
    var go := true;
    if !force && !dryRun {
      var answer := Confirm(false, Answer(answers, n));
      if answer.Err? {
        return Err(answer.error);
      }
      go := answer.value;
    }
    if go {
      node.DeleteNetwork(n, dryRun);
    }
    r := Ok(go && !dryRun);
  }

  /** The loop of lines 293-297 over the unbound bridges, in whatever order
      the set yields them; `deleted` are the bridges delete requests went
      out for, in order. An unanswered question ends the loop. */
  method DeleteUnbound(node: ProxmoxNode, unbound: set<string>, force: bool, dryRun: bool, answers: map<string, string>)
    returns (r: Result<()>, ghost deleted: seq<string>)
    modifies node.host
    ensures node.host.vms == old(node.host.vms) && node.host.order == old(node.host.order)
    ensures node.host.description == old(node.host.description)
    ensures Unique(deleted)
    ensures forall n :: n in deleted ==> n in unbound && !dryRun && Approved(force, answers, n)
    ensures r.Err? <==> !force && !dryRun && exists n :: n in unbound && n !in answers
    ensures r.Ok? ==> forall n :: n in unbound ==> (n in deleted <==> !dryRun && Approved(force, answers, n))
    ensures node.host.log == old(node.host.log) + Deletions(deleted)
    ensures node.host.ifaces == RemoveAll(old(node.host.ifaces), deleted)
  {
    ghost var log0, ifaces0 := node.host.log, node.host.ifaces;
    deleted := [];
    ghost var done: set<string> := {};
    var todo := unbound;
    while todo != {}
      invariant done + todo == unbound && done !! todo
      invariant node.host.vms == old(node.host.vms) && node.host.order == old(node.host.order)
      invariant node.host.description == old(node.host.description)
      invariant Handled(done, deleted, force, dryRun, answers)
      invariant node.host.log == log0 + Deletions(deleted)
      invariant node.host.ifaces == RemoveAll(ifaces0, deleted)
      decreases |todo|
    {
      var n :| n in todo;
      var one := CleanupOne(node, n, force, dryRun, answers);
      if one.Err? {
        return Err(one.error), deleted;
      }
      HandledStep(done, deleted, n, one.value, force, dryRun, answers);
      Partition(done, todo, unbound, n);
      if one.value {
        DeletionsAppend(deleted, n);
        Associative(log0, Deletions(deleted), [DeleteBridge(n)]);
        RemoveAllAppend(ifaces0, deleted, n);
        deleted := deleted + [n];
      }
      done := done + {n};
      todo := todo - {n};
    }
    r := Ok(());
  }

  /** Lines 290-299: the cached bridge list is read again; every bridge no
      VM binds is deleted, after a confirmation unless --force or --dry-run
      is given (under --dry-run no request is sent); the network
      configuration is committed once at the end, unless an unanswered
      question ended the run. `deleted` are the bridges delete requests went
      out for, in order. */
  method CleanupNetworks(node: ProxmoxNode, force: bool, dryRun: bool, answers: map<string, string>)
    returns (r: Result<()>, ghost deleted: seq<string>)
    requires node.host.Valid()
    modifies node`networks, node.host
    ensures node.host.Valid()
    ensures node.networks == Bridges(old(node.host.ifaces))
    ensures node.host.vms == old(node.host.vms) && node.host.order == old(node.host.order)
    ensures node.host.description == old(node.host.description)
    ensures var unbound := Unbound(Bridges(old(node.host.ifaces)), BoundOnHost(old(node.host.order), old(node.host.vms)));
      && Unique(deleted)
      && (forall n :: n in deleted ==> n in unbound && !dryRun && Approved(force, answers, n))
      && (r.Err? <==> !force && !dryRun && exists n :: n in unbound && n !in answers)
      && (r.Ok? ==> forall n :: n in unbound ==> (n in deleted <==> !dryRun && Approved(force, answers, n)))
    ensures node.host.log == old(node.host.log) + Deletions(deleted) + (if r.Ok? then [CommitNetwork] else [])
    ensures node.host.ifaces == RemoveAll(old(node.host.ifaces), deleted)
  {
    node.GetNetworks();
    var unbound := node.GetUnboundNetworks();
    r, deleted := DeleteUnbound(node, unbound, force, dryRun, answers);
    if r.Ok? {
      node.CommitNetworkConfig();
    }
  }

  // ---------------------------------------------------------------------
  // A run (lines 290-348)

  lemma OnlyInJoin(a: seq<Call>, b: seq<Call>, ids: set<int>)
    requires NoneTouchVm(a) && OnlyIn(b, ids)
    ensures OnlyIn(a + b, ids)
  {
    forall j | 0 <= j < |a + b| && TouchesVm((a + b)[j]) ensures Target((a + b)[j]) in ids {
      assert (a + b)[j] == b[j - |a|];
    }
  }

  /** One run of the tool after its inputs are loaded: --cleanup-networks
      alone, or the slot resolution, the range and the VM loop. The registry
      is written before the range is read, so a bad range still registers a
      new deployment, and so does --dry-run, which sends nothing else. */
  method Deploy(node: ProxmoxNode, dep: Deployment, args: Args, rangeText: string, cleanup: bool,
                answers: map<string, string>, cleanupAnswers: map<string, string>)
    returns (r: Result<()>, ghost calls: seq<Call>)
    requires node.Synced() && node.host.Valid()
    modifies node`networks, node`baseId, node.host
    ensures node.host.Valid()
    ensures node.host.log == old(node.host.log) + calls
    ensures cleanup ==> && NoneTouchVm(calls) && node.host.vms == old(node.host.vms)
                        && node.host.order == old(node.host.order)
    ensures !cleanup ==> var res := Resolve(Records(old(node.host.description)), dep.name, args.remove);
      && (res.Err? ==> r == Err(res.error) && calls == [])
      && (res.Ok? ==> node.baseId == BaseId(res.value.slot))
      && (res.Ok? && RangeFilter(rangeText).Err? ==> r == Err(BadRange) && calls == RegistryCalls(res.value))
      && (res.Ok? && args.dryRun ==> calls == RegistryCalls(res.value) && node.host.vms == old(node.host.vms))
      && (res.Ok? ==> |RegistryCalls(res.value)| <= |calls| && calls[..|RegistryCalls(res.value)|] == RegistryCalls(res.value))
      && (res.Ok? && RangeFilter(rangeText).Ok? ==>
            var ids := SelectedIds(BaseId(res.value.slot), dep.vms, RangeFilter(rangeText).value, args.allow, args.exclude);
            && OnlyIn(calls, ids)
            && (args.remove && !args.dryRun && r.Ok? ==> node.host.vms == old(node.host.vms) - ids)
            && (!args.remove && !args.dryRun && r.Ok? ==>
                  ClonedUpTo(calls[|RegistryCalls(res.value)|..], BaseId(res.value.slot), dep.vms,
                             RangeFilter(rangeText).value, args.allow, args.exclude, |dep.vms|)))
  {
    calls := [];
    ghost var log0 := node.host.log;
    if cleanup {
      var cleaned, deleted := CleanupNetworks(node, args.force, args.dryRun, cleanupAnswers);
      r := cleaned;
      calls := Deletions(deleted) + (if cleaned.Ok? then [CommitNetwork] else []);
      DeletionsNoneTouchVm(deleted);
      NoneTouchVmAppend(Deletions(deleted), if cleaned.Ok? then [CommitNetwork] else []);
      return;
    }
    var res := ResolveSlot(node, dep.name, args.remove);
    if res.Err? {
      return Err(res.error), calls;
    }
    calls := RegistryCalls(res.value);
    var range := RangeFilter(rangeText);
    if range.Err? {
      return Err(range.error), calls;
    }
    var processed, more := ProcessVms(node, dep, range.value, args, answers);
    Associative(log0, calls, more);
    OnlyInJoin(calls, more, SelectedIds(node.baseId, dep.vms, range.value, args.allow, args.exclude));
    if args.dryRun {
      assert calls + more == calls;
    }
    ghost var registry := calls;
    calls := calls + more;
    assert calls[..|registry|] == registry && calls[|registry|..] == more;
    r := processed;
  }
}
