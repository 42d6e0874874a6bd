/** Bridge naming: how a network reference of a deployment description names
    a host bridge, which host interfaces count as bridges, and which bridges a
    VM's `net*` options are bound to. */
module Naming {
  import opened Wrappers
  import opened Text

  /** A network reference of a deployment description: a number, taken
      relative to the deployment's base id, or the name of a bridge. */
  datatype NetRef = Num(n: int) | Name(s: string)

  /** `ProxmoxNode.get_network_name`: the number `n` names `vmbr<base + n>`, a
      string starting with "vmbr" names itself, anything else is an error.
      The source's error call names the undefined `__func__`, so Python stops
      the run with a NameError before the message is printed; the model
      records the condition the run ends on, not how it ends. */
  function NetworkName(baseId: int, net: NetRef): (r: Result<string>)
    ensures r.Ok? <==> net.Num? || HasPrefix(net.s, "vmbr")
    ensures r.Ok? ==> HasPrefix(r.value, "vmbr")
    ensures r.Ok? && net.Name? ==> r.value == net.s
    ensures r.Err? ==> r.error == UnexpectedNetworkType(net.s)
  {
    match net
    case Num(n) => Ok("vmbr" + IntToString(baseId + n))
    case Name(s) => if HasPrefix(s, "vmbr") then Ok(s) else Err(UnexpectedNetworkType(s))
  }

  /** The number a numbered bridge name carries, if it is `vmbr<integer>`. */
  function BridgeNumber(name: string): Option<int> {
    if HasPrefix(name, "vmbr") then ParseInt(name[4..]) else None
  }

  /** A numeric reference names the bridge whose number is base + n. */
  lemma NumberedBridge(baseId: int, n: int)
    ensures NetworkName(baseId, Num(n)).Ok?
    ensures BridgeNumber(NetworkName(baseId, Num(n)).value) == Some(baseId + n)
  {
    var name := NetworkName(baseId, Num(n)).value;
    assert name[4..] == IntToString(baseId + n);
    ParseIntToString(baseId + n);
  }

  /** Numeric references name the same bridge exactly when they add up to
      the same number. */
  lemma NumberedBridgesDistinct(base1: int, n1: int, base2: int, n2: int)
    ensures NetworkName(base1, Num(n1)) == NetworkName(base2, Num(n2)) <==> base1 + n1 == base2 + n2
  {
    NumberedBridge(base1, n1);
    NumberedBridge(base2, n2);
  }

  /** The loop of `ProxmoxNode.get_networks`: the host interfaces whose name
      starts with "vmbr", in host order. */
  function Bridges(ifaces: seq<string>): (r: seq<string>)
    ensures |r| <= |ifaces|
    decreases |ifaces|
  {
    if ifaces == [] then []
    else
      var last := ifaces[|ifaces| - 1];
      Bridges(ifaces[..|ifaces| - 1]) + (if HasPrefix(last, "vmbr") then [last] else [])
  }

  /** The bridges are exactly the interfaces named "vmbr...". */
  lemma {:induction false} BridgesMember(ifaces: seq<string>, x: string)
    ensures x in Bridges(ifaces) <==> x in ifaces && HasPrefix(x, "vmbr")
    decreases |ifaces|
  {
    if ifaces != [] {
      var init := ifaces[..|ifaces| - 1];
      BridgesMember(init, x);
      assert ifaces == init + [ifaces[|ifaces| - 1]];
    }
  }

  lemma BridgesAppend(ifaces: seq<string>, x: string)
    ensures Bridges(ifaces + [x]) == Bridges(ifaces) + (if HasPrefix(x, "vmbr") then [x] else [])
  {
    assert (ifaces + [x])[..|ifaces|] == ifaces;
  }

  /** `ProxmoxNode.has_network`: whether the reference names a known bridge. */
  function HasNetwork(networks: seq<string>, baseId: int, net: NetRef): (r: Result<bool>)
    ensures r.Ok? <==> NetworkName(baseId, net).Ok?
    ensures r.Ok? ==> (r.value <==> NetworkName(baseId, net).value in networks)
  {
    match NetworkName(baseId, net)
    case Err(e) => Err(e)
    case Ok(name) => Ok(name in networks)
  }

  // ---------------------------------------------------------------------
  // Bridges bound by VM configurations (`get_unbound_networks`)

  /** The bridges one option value names: for each comma-separated part
      starting with "bridge=", the part after `strip("bridge=")`. */
  function BridgesOf(value: string): set<string> {
    set p | p in Split(value, ',') && HasPrefix(p, "bridge=") :: Strip(p, BridgeChars)
  }

  /** The bridges the `net*` options of one VM configuration name. */
  function BoundBy(config: map<string, string>): set<string> {
    set k, b | k in config && HasPrefix(k, "net") && b in BridgesOf(config[k]) :: b
  }

  /** The configuration binds the bridge. */
  predicate Binds(config: map<string, string>, bridge: string) {
    bridge in BoundBy(config)
  }

  /** `set(networks) - bound`. */
  function Unbound(networks: seq<string>, bound: set<string>): (r: set<string>)
    ensures forall x :: x in r <==> x in networks && x !in bound
  {
    (set x | x in networks) - bound
  }

  /** A bridge whose name begins and ends outside the characters of
      "bridge=" (every `vmbr<number>` does) is read back unchanged from the
      option value `<nic>,bridge=<name>` that VM creation writes. */
  lemma WrittenBridgeIsBound(nic: string, bridge: string)
    requires |bridge| > 0 && ',' !in bridge
    requires bridge[0] !in BridgeChars && bridge[|bridge| - 1] !in BridgeChars
    ensures bridge in BridgesOf(nic + ",bridge=" + bridge)
  {
    var part := "bridge=" + bridge;
    var value := nic + ",bridge=" + bridge;
    SettingSplit(nic, bridge);
    assert part in Split(value, ',');
    assert HasPrefix(part, "bridge=");
    StripBridgeSetting(bridge);
    BridgesOfMember(value, part);
  }

  /** The bridge setting of a comma-free bridge name is comma-free. */
  lemma SettingCommaFree(bridge: string)
    requires ',' !in bridge
    ensures ',' !in "bridge=" + bridge
  {
    var part := "bridge=" + bridge;
    forall k | 0 <= k < |part| ensures part[k] != ',' {
      if k >= 7 {
        assert part[k] == bridge[k - 7];
      }
    }
  }

  /** An option value `<nic>,bridge=<bridge>` splits into the NIC type's
      parts followed by the bridge setting. */
  lemma SettingSplit(nic: string, bridge: string)
    requires ',' !in bridge
    ensures Split(nic + ",bridge=" + bridge, ',') == Split(nic, ',') + ["bridge=" + bridge]
  {
    var part := "bridge=" + bridge;
    assert nic + ",bridge=" + bridge == nic + [','] + part;
    SplitConcat(nic, ',', part);
    SettingCommaFree(bridge);
    SplitWhole(part, ',');
  }

  lemma BridgesOfMember(value: string, part: string)
    requires part in Split(value, ',') && HasPrefix(part, "bridge=")
    ensures Strip(part, BridgeChars) in BridgesOf(value)
  {
  }

  /** Every numbered bridge name qualifies for WrittenBridgeIsBound. */
  lemma NumberedBridgeShape(baseId: int, n: int)
    ensures var name := NetworkName(baseId, Num(n)).value;
      && |name| > 0 && ',' !in name
      && name[0] !in BridgeChars && name[|name| - 1] !in BridgeChars
  {
    var digits := IntToString(baseId + n);
    var name := "vmbr" + digits;
    var tail := if baseId + n < 0 then NatToString(-(baseId + n)) else NatToString(baseId + n);
    assert IsDigit(tail[|tail| - 1]);
    assert name[|name| - 1] == tail[|tail| - 1];
    assert forall k :: 0 <= k < |name| ==> name[k] != ',' by {
      forall k | 0 <= k < |name| ensures name[k] != ',' {
        if k >= 4 && baseId + n < 0 && k >= 5 { assert name[k] == tail[k - 5]; }
        else if k >= 4 && baseId + n >= 0 { assert name[k] == tail[k - 4]; }
      }
    }
  }
}
