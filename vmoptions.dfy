/** The option dictionary `create_vm` builds for a new VM: global options
    overridden by the VM's own, the VM's full name and local id, the serial
    number translated into an SMBIOS setting, and one `net<i>` option per
    network that is not already attached. */
module VmOptions {
  import opened Wrappers
  import opened Text
  import Base64
  import Format
  import opened Naming

  /** Option names to option values, as sent to the host's VM config call. */
  type Options = map<string, string>

  /** One VM entry of a deployment description. */
  datatype VmSpec = VmSpec(
    id: int,                  // local id, offset by the deployment's base id on the host
    name: string,
    template: Option<string>, // None when the entry has no `template`
    options: Options,
    networks: seq<NetRef>)

  /** A deployment description, with its `global` block. */
  datatype Deployment = Deployment(
    name: string,
    globalOptions: Options,
    globalNetworks: seq<NetRef>,
    vms: seq<VmSpec>)

  /** `vm_options = global_options.copy(); vm_options.update(vm_options_of_vm)`. */
  function Merge(global: Options, local: Options): (r: Options)
    ensures r.Keys == global.Keys + local.Keys
    ensures forall k :: k in local ==> r[k] == local[k]
    ensures forall k :: k in global && k !in local ==> r[k] == global[k]
  {
    global + local
  }

  /** The name a VM gets on the host: `<deployment>-<vm>`. */
  function FullName(dep: Deployment, vm: VmSpec): string {
    dep.name + "-" + vm.name
  }

  /** The SMBIOS system setting that carries a Base64-encoded serial. */
  function SmbiosSetting(encoded: string): string {
    "serial=" + encoded + ",base64=1"
  }

  /** Reads the serial back out of an SMBIOS setting of that form. */
  function SerialOf(smbios: string): Option<string> {
    if |smbios| >= 16 && smbios[..7] == "serial=" && smbios[|smbios| - 9..] == ",base64=1" then
      match Base64.Decode(smbios[7..|smbios| - 9])
      case None => None
      case Some(bs) =>
        if forall k :: 0 <= k < |bs| ==> bs[k] < 128 then Some(Base64.AsciiString(bs)) else None
    else None
  }

  /** The serial's round trip: the SMBIOS setting written for an ASCII
      serial reads back as that serial. */
  lemma SerialRoundTrip(serial: string)
    requires Base64.IsAscii(serial)
    ensures SerialOf(SmbiosSetting(Base64.Encode(Base64.AsciiBytes(serial).value))) == Some(serial)
  {
    var bytes := Base64.AsciiBytes(serial).value;
    var e := Base64.Encode(bytes);
    var s := SmbiosSetting(e);
    assert s[..7] == "serial=";
    assert s[|s| - 9..] == ",base64=1";
    assert s[7..|s| - 9] == e;
    Base64.DecodeEncode(bytes);
    Base64.AsciiRoundTrip(serial);
  }

  /** The keyword arguments the serial template is rendered with. */
  function SerialArguments(dep: Deployment, vm: VmSpec): Format.Arguments {
    Format.Arguments(FullName(dep, vm), vm.id, dep.name)
  }

  /** Option keys the function sets itself. */
  const Reserved: set<string> := {"vmid", "name", "serial", "smbios1"}

  /** Merged options with `vmid` and `name` set (lines 194-198). */
  function Named(dep: Deployment, vm: VmSpec): Options {
    Merge(dep.globalOptions, vm.options)["vmid" := IntToString(vm.id)]["name" := FullName(dep, vm)]
  }

  /** The options of lines 194-207 of `create_vm`: merged options, then
      `vmid` and `name` set, then `serial` replaced by `smbios1`. Fails when
      the serial template does not render or the rendered serial is not ASCII. */
  function ConfiguredOptions(dep: Deployment, vm: VmSpec): (r: Result<Options>)
    ensures r.Err? ==> "serial" in vm.options || "serial" in dep.globalOptions
  {
    var named := Named(dep, vm);
    if "serial" !in named then Ok(named)
    else
      match Format.Render(named["serial"], SerialArguments(dep, vm))
      case Err(e) => Err(e)
      case Ok(serial) =>
        match Base64.AsciiBytes(serial)
        case None => Err(NotAscii)
        case Some(bytes) => Ok((named - {"serial"})["smbios1" := SmbiosSetting(Base64.Encode(bytes))])
  }

  /** The serial template as the VM sees it, rendered. */
  function RenderedSerial(dep: Deployment, vm: VmSpec): Result<string>
    requires "serial" in Merge(dep.globalOptions, vm.options)
  {
    Format.Render(Merge(dep.globalOptions, vm.options)["serial"], SerialArguments(dep, vm))
  }

  /** Option construction fails exactly when there is a serial template and
      it does not render, or renders to a string that is not ASCII. */
  lemma ConfiguredOptionsOk(dep: Deployment, vm: VmSpec)
    ensures var merged := Merge(dep.globalOptions, vm.options);
      ConfiguredOptions(dep, vm).Ok? <==>
        ("serial" in merged ==> RenderedSerial(dep, vm).Ok? && Base64.IsAscii(RenderedSerial(dep, vm).value))
  {
    var merged := Merge(dep.globalOptions, vm.options);
    if "serial" in merged {
      assert Named(dep, vm)["serial"] == merged["serial"];
    }
  }

  /** The keys of the options sent: the merged ones without `serial`, plus
      `vmid`, `name`, and `smbios1` when there was a serial. */
  lemma ConfiguredOptionsKeys(dep: Deployment, vm: VmSpec)
    requires ConfiguredOptions(dep, vm).Ok?
    ensures var merged := Merge(dep.globalOptions, vm.options);
      ConfiguredOptions(dep, vm).value.Keys
      == merged.Keys - {"serial"} + {"vmid", "name"} + (if "serial" in merged then {"smbios1"} else {})
  {
  }

  /** `name` is the full name, `vmid` the local id as text, `serial` is gone,
      and every other option has the VM's own value, or else the global one. */
  lemma ConfiguredOptionsValues(dep: Deployment, vm: VmSpec)
    requires ConfiguredOptions(dep, vm).Ok?
    ensures var r := ConfiguredOptions(dep, vm).value;
      && "name" in r && r["name"] == FullName(dep, vm)
      && "vmid" in r && r["vmid"] == IntToString(vm.id)
      && "serial" !in r
      && (forall k :: k in vm.options && k !in Reserved ==> k in r && r[k] == vm.options[k])
      && (forall k :: k in dep.globalOptions && k !in vm.options && k !in Reserved
                      ==> k in r && r[k] == dep.globalOptions[k])
  {
  }

  /** The SMBIOS setting reads back as the rendered serial; without a serial
      template an `smbios1` option passes through unchanged. */
  lemma ConfiguredOptionsSerial(dep: Deployment, vm: VmSpec)
    requires ConfiguredOptions(dep, vm).Ok?
    ensures var merged := Merge(dep.globalOptions, vm.options);
      var r := ConfiguredOptions(dep, vm).value;
      && ("serial" in merged ==> "smbios1" in r && SerialOf(r["smbios1"]) == Some(RenderedSerial(dep, vm).value))
      && ("serial" !in merged && "smbios1" in merged ==> "smbios1" in r && r["smbios1"] == merged["smbios1"])
  {
    var merged := Merge(dep.globalOptions, vm.options);
    if "serial" in merged {
      assert Named(dep, vm)["serial"] == merged["serial"];
      SerialRoundTrip(RenderedSerial(dep, vm).value);
    }
  }

  // ---------------------------------------------------------------------
  // NIC assignment (lines 210-233 of `create_vm`)

  /** `'net{}'.format(i)`. */
  function NetKey(i: nat): string {
    "net" + NatToString(i)
  }

  lemma NetKeyInjective(i: nat, j: nat)
    ensures NetKey(i) == NetKey(j) <==> i == j
  {
    if NetKey(i) == NetKey(j) {
      assert NetKey(i)[3..] == NatToString(i);
      assert NetKey(j)[3..] == NatToString(j);
      NatToStringInjective(i, j);
    }
  }

  lemma NetKeyIsNet(i: nat)
    ensures HasPrefix(NetKey(i), "net")
  {
    assert NetKey(i)[..3] == "net";
  }

  /** Index `i` is the first free one: `net0` .. `net<i-1>` are taken, `net<i>` is not. */
  ghost predicate FirstFree(opts: Options, i: nat) {
    NetKey(i) !in opts && forall j :: 0 <= j < i ==> NetKey(j) in opts
  }

  /** The value of a NIC option for a bridge: `<nic_type>,bridge=<bridge>`. */
  function NicValue(nic: string, bridge: string): string {
    nic + ",bridge=" + bridge
  }

  /** An option attaches the bridge: its key starts with "net" and one of its
      comma-separated parts is `bridge=<bridge>`. */
  predicate Attaches(key: string, value: string, bridge: string) {
    HasPrefix(key, "net") && ("bridge=" + bridge) in Split(value, ',')
  }

  /** The `already_added` search of the loop. */
  predicate Attached(opts: Options, bridge: string) {
    exists k :: k in opts && Attaches(k, opts[k], bridge)
  }

  /** One round of the NIC loop: the bridge is written to `key` unless an
      option already attaches it. */
  function StepAt(before: Options, key: string, bridge: string, nic: string): Options {
    if Attached(before, bridge) then before else before[key := NicValue(nic, bridge)]
  }

  /** A round writes no key but its own. */
  lemma StepAtFrame(before: Options, key: string, bridge: string, nic: string, k: string)
    requires k != key
    ensures k in StepAt(before, key, bridge, nic) <==> k in before
    ensures k in before ==> StepAt(before, key, bridge, nic)[k] == before[k]
  {
  }

  /** A round writes its key exactly when the bridge is not yet attached. */
  lemma StepAtKey(before: Options, key: string, bridge: string, nic: string)
    ensures !Attached(before, bridge) ==> StepAt(before, key, bridge, nic) == before[key := NicValue(nic, bridge)]
    ensures Attached(before, bridge) ==> StepAt(before, key, bridge, nic) == before
  {
  }

  /** The NIC loop over the resolved network names, counting from index `i`:
      the bridge is the part of a name before any comma; it is written to
      `net<i>` unless already attached; `i` advances for every network either
      way. The options after the last name are one round on top of the
      options after the names before it. */
  function Attach(opts: Options, i: nat, names: seq<string>, nic: string): Options
    decreases |names|
  {
    if names == [] then opts
    else
      var n := |names| - 1;
      StepAt(Attach(opts, i, names[..n], nic), NetKey(i + n), BeforeComma(names[n]), nic)
  }

  /** The options after the first `k + 1` names are one round on top of the
      options after the first `k`. */
  lemma AttachPrefixStep(opts: Options, i: nat, names: seq<string>, nic: string, k: nat)
    requires k < |names|
    ensures Attach(opts, i, names[..k + 1], nic)
            == StepAt(Attach(opts, i, names[..k], nic), NetKey(i + k), BeforeComma(names[k]), nic)
  {
    PrefixOfPrefix(names, k, k + 1);
  }

  /** The rounds after the first `p` write only the keys `net<i + p>` ..
      `net<i + |names| - 1>`: every other option, present or absent, is what
      it was after the first `p` rounds. */
  lemma {:induction false} AttachTail(opts: Options, i: nat, names: seq<string>, nic: string, p: nat, k: string)
    requires p <= |names|
    requires forall m: nat :: i + p <= m < i + |names| ==> k != NetKey(m)
    ensures k in Attach(opts, i, names, nic) <==> k in Attach(opts, i, names[..p], nic)
    ensures k in Attach(opts, i, names[..p], nic) ==> Attach(opts, i, names, nic)[k] == Attach(opts, i, names[..p], nic)[k]
    decreases |names|
  {
    if p == |names| {
      PrefixAll(names);
    } else {
      var n := |names| - 1;
      var prev := Attach(opts, i, names[..n], nic);
      assert Attach(opts, i, names, nic) == StepAt(prev, NetKey(i + n), BeforeComma(names[n]), nic);
      StepAtFrame(prev, NetKey(i + n), BeforeComma(names[n]), nic, k);
      PrefixOfPrefix(names, p, n);
      AttachTail(opts, i, names[..n], nic, p, k);
    }
  }

  /** The loop only ever writes the keys `net<i>` .. `net<i + |names| - 1>`:
      every other option, present or absent, is left as it was. */
  lemma AttachFrame(opts: Options, i: nat, names: seq<string>, nic: string, k: string)
    requires forall j: nat :: i <= j < i + |names| ==> k != NetKey(j)
    ensures k in Attach(opts, i, names, nic) <==> k in opts
    ensures k in opts ==> Attach(opts, i, names, nic)[k] == opts[k]
  {
    AttachTail(opts, i, names, nic, 0, k);
    SliceZero(names);
  }

  /** What the loop leaves at the `j`-th network's index: `net<i + j>` holds
      that network's bridge when the bridge was not yet attached when its
      turn came, and is otherwise exactly what it was before the loop. */
  lemma AttachPosition(opts: Options, i: nat, names: seq<string>, nic: string, j: nat)
    requires j < |names|
    ensures var before := Attach(opts, i, names[..j], nic);
      var bridge := BeforeComma(names[j]);
      var r := Attach(opts, i, names, nic);
      && (!Attached(before, bridge) ==> NetKey(i + j) in r && r[NetKey(i + j)] == NicValue(nic, bridge))
      && (Attached(before, bridge) ==>
            (NetKey(i + j) in r <==> NetKey(i + j) in opts)
            && (NetKey(i + j) in opts ==> r[NetKey(i + j)] == opts[NetKey(i + j)]))
  {
    var key := NetKey(i + j);
    var before := Attach(opts, i, names[..j], nic);
    AttachPrefixStep(opts, i, names, nic, j);
    StepAtKey(before, key, BeforeComma(names[j]), nic);
    forall m: nat | i + j + 1 <= m < i + |names| ensures key != NetKey(m) {
      NetKeyInjective(i + j, m);
    }
    AttachTail(opts, i, names, nic, j + 1, key);
    forall m: nat | i <= m < i + |names[..j]| ensures key != NetKey(m) {
      NetKeyInjective(i + j, m);
    }
    AttachFrame(opts, i, names[..j], nic, key);
  }

  // ---------------------------------------------------------------------
  // No bridge gains a second attachment

  /** The option keys that attach a bridge. */
  function AttachKeys(opts: Options, bridge: string): set<string> {
    set k | k in opts && Attaches(k, opts[k], bridge)
  }

  function Max(a: int, b: int): int {
    if a < b then b else a
  }

  /** The value written for one bridge splits into the NIC type's parts
      followed by the bridge setting. */
  lemma SplitNicValue(nic: string, bridge: string)
    requires ',' !in bridge
    ensures Split(NicValue(nic, bridge), ',') == Split(nic, ',') + ["bridge=" + bridge]
  {
    SettingSplit(nic, bridge);
  }

  /** The value written for one bridge attaches no other bridge, as long as
      the NIC type itself holds no `bridge=` part. */
  lemma NicValueAttaches(nic: string, bridge: string, other: string)
    requires ',' !in bridge
    ensures Split(NicValue(nic, bridge), ',') == Split(nic, ',') + ["bridge=" + bridge]
    ensures ("bridge=" + other) !in Split(nic, ',') ==>
              (("bridge=" + other) in Split(NicValue(nic, bridge), ',') <==> other == bridge)
  {
    SplitNicValue(nic, bridge);
    if "bridge=" + other == "bridge=" + bridge {
      assert other == ("bridge=" + other)[7..] == ("bridge=" + bridge)[7..] == bridge;
    }
  }

  /** One step of the loop keeps the bound: if `bridge` is written, no key
      attached it before, and the new value attaches no other bridge. */
  lemma StepBound(opts: Options, i: nat, bridge: string, nic: string, c: string)
    requires ',' !in bridge
    requires ("bridge=" + c) !in Split(nic, ',')
    ensures |AttachKeys(StepAt(opts, NetKey(i), bridge, nic), c)| <= Max(1, |AttachKeys(opts, c)|)
  {
    if !Attached(opts, bridge) {
      var key := NetKey(i);
      var next := opts[key := NicValue(nic, bridge)];
      NicValueAttaches(nic, bridge, c);
      if c == bridge {
        assert AttachKeys(opts, c) == {};
        assert AttachKeys(next, c) <= {key};
        assert |{key}| == 1;
      } else {
        assert AttachKeys(next, c) <= AttachKeys(opts, c);
      }
      SubsetSize(AttachKeys(next, c), if c == bridge then {key} else AttachKeys(opts, c));
    }
  }

  lemma MaxChain(a: int, b: int, c: int)
    requires a <= Max(1, b) && b <= Max(1, c)
    ensures a <= Max(1, c)
  {
  }

  lemma SubsetSize<T>(a: set<T>, b: set<T>)
    requires a <= b
    ensures |a| <= |b|
  {
    assert b == a + (b - a);
  }

  /** No bridge gains a second attachment from the loop, even when it is
      listed several times: a bridge attached at most once before is attached
      at most once after. (The NIC type must not itself hold a `bridge=`
      part for that bridge.) */
  lemma {:induction false} NoSecondAttachment(opts: Options, i: nat, names: seq<string>, nic: string, c: string)
    requires ("bridge=" + c) !in Split(nic, ',')
    ensures |AttachKeys(Attach(opts, i, names, nic), c)| <= Max(1, |AttachKeys(opts, c)|)
    decreases |names|
  {
    if names != [] {
      var n := |names| - 1;
      var prev := Attach(opts, i, names[..n], nic);
      assert Attach(opts, i, names, nic) == StepAt(prev, NetKey(i + n), BeforeComma(names[n]), nic);
      NoSecondAttachment(opts, i, names[..n], nic, c);
      StepBound(prev, i + n, BeforeComma(names[n]), nic, c);
      MaxChain(|AttachKeys(Attach(opts, i, names, nic), c)|, |AttachKeys(prev, c)|, |AttachKeys(opts, c)|);
    }
  }

  /** When no option occupies the indices the loop will use, every listed
      network's bridge is attached afterwards. */
  lemma AttachAll(opts: Options, i: nat, names: seq<string>, nic: string, j: nat)
    requires forall m: nat :: i <= m < i + |names| ==> NetKey(m) !in opts
    requires j < |names|
    ensures Attached(Attach(opts, i, names, nic), BeforeComma(names[j]))
  {
    var before := Attach(opts, i, names[..j], nic);
    var bridge := BeforeComma(names[j]);
    var r := Attach(opts, i, names, nic);
    AttachPosition(opts, i, names, nic, j);
    if !Attached(before, bridge) {
      NicValueAttaches(nic, bridge, bridge);
      NetKeyIsNet(i + j);
      assert Attaches(NetKey(i + j), r[NetKey(i + j)], bridge);
    } else {
      var k :| k in before && Attaches(k, before[k], bridge);
      AttachKeySurvives(opts, i, names, nic, j, k);
      assert Attaches(k, r[k], bridge);
    }
  }

  /** A key present after the first `j` steps keeps its value to the end,
      provided the loop does not start out over occupied indices. */
  lemma AttachKeySurvives(opts: Options, i: nat, names: seq<string>, nic: string, j: nat, k: string)
    requires forall m: nat :: i <= m < i + |names| ==> NetKey(m) !in opts
    requires j <= |names|
    requires k in Attach(opts, i, names[..j], nic)
    ensures k in Attach(opts, i, names, nic)
    ensures Attach(opts, i, names, nic)[k] == Attach(opts, i, names[..j], nic)[k]
  {
    if m: nat :| i + j <= m < i + |names| && k == NetKey(m) {
      // A later index was in no option before the loop, and the first j
      // steps write only smaller indices: k cannot be present yet.
      forall p: nat | i <= p < i + |names[..j]| ensures k != NetKey(p) {
        NetKeyInjective(m, p);
      }
      AttachFrame(opts, i, names[..j], nic, k);
      assert false;
    } else {
      AttachTail(opts, i, names, nic, j, k);
    }
  }
}
