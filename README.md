# Proxmox deployment tool — a Dafny model of its core

`create_deployment.py` deploys a described set of virtual machines on one
Proxmox host. Each deployment name gets a *slot* in a registry kept in the
host's description field. The slot fixes the deployment's VM id range
(`slot * 10000` upward) and the numbering of its bridges (`vmbr<base + n>`).
For every VM entry the tool does four things:

- it merges the global and per-VM options;
- it renders the serial-number template and stores it Base64-encoded as an
  SMBIOS setting (RFC 4648, section 4);
- it creates the bridges the VM needs (after a confirmation) and attaches
  one NIC per bridge;
- it clones the VM from its template, following a collision policy for a VM
  already at that id, then configures it and optionally starts it.

With `--remove` the tool stops and destroys the selected VMs instead. The
stop loop is bounded. With `--cleanup-networks` it deletes the bridges that
no VM on the host uses. `--range`, positional names and `--exclude` filter
the entries, and `--dry-run` suppresses the changes.

The model has eleven modules, one file each:

| file | module | what it holds |
|---|---|---|
| `wrappers.dfy` | `Wrappers` | `Option`, the tool's fatal conditions (`Error`), `Result` |
| `text.dfy` | `Text` | `startswith`, `split`, `strip`, decimal rendering and `int()` parsing |
| `base64.dfy` | `Base64` | `base64.b64encode`, a decoder, and the encode/decode round trip |
| `format.dfy` | `Format` | the part of `str.format` the serial template uses |
| `registry.dfy` | `Registry` | the deployment registry and slot allocation |
| `naming.dfy` | `Naming` | bridge names, the host's bridge list, the bridges a VM configuration binds |
| `vmoptions.dfy` | `VmOptions` | the options `create_vm` builds, the serial, the NIC loop as a function |
| `platform.dfy` | `Platform` | the Proxmox host as state (`Host` class) with a log of the changes sent |
| `node.dfy` | `Node` | the `ProxmoxNode` class |
| `provision.dfy` | `Provision` | `confirm` and `create_vm` |
| `driver.dfy` | `Driver` | `main`: slot resolution, filters, the VM loop, network cleanup |

The Proxmox API is a `Host` object. It holds:

- the VMs, as a map from id to status and configuration;
- their listing order;
- the interface list;
- the registry;
- a ghost log of every changing request sent.

Each `ProxmoxNode` method is proved against that state. Its contract gives
the new state and the calls appended to the log.

Operator answers to `confirm` are parameters. They are maps from bridge name
to the typed line, and a missing entry stands for the end of the console
input. The VM's status polling becomes a per-VM count of the stop requests
it needs before it halts.

Where the tool's documented design and its code differ, the model follows
the code:

- under `--dry-run`, a new deployment's registry record is still written;
- under `--dry-run`, cleanup deletes nothing but still commits the network
  configuration, and it asks for no confirmation;
- the destroy loop sends at most 30 stop requests and then deletes the VM
  anyway, with nothing recorded about the timeout;
- a new slot is `len(records) + 1`, so slots are only guaranteed distinct
  for a registry the tool itself built (`Registry.Canonical`);
- the NIC loop writes `net<i>` for the `i`-th network counted from the
  first free index, so it can overwrite an existing `net*` option further
  up;
- `--range` is Python's `range(*ints)`, and a range with no elements
  filters nothing (`if _range and ...`).

## Model

| member | source | states |
|---|---|---|
| Text.Split | create_deployment.py:88 | `str.split` always yields at least one piece |
| Text.SplitPieces | create_deployment.py:88 | no piece contains the separator |
| Text.JoinSplit | create_deployment.py:88 | joining the pieces with the separator gives back the string |
| Text.SplitConcat | create_deployment.py:228 | splitting `x + sep + y` yields the pieces of `x` followed by those of `y` |
| Text.SplitWhole | create_deployment.py:226 | a string without the separator splits into itself |
| Text.BeforeComma | create_deployment.py:226 | `split(',')[0]` is the comma-free prefix ending at the first comma or the end |
| Text.LStrip | create_deployment.py:90 | the result is a suffix; every character cut is in the set; the result does not start with one |
| Text.RStrip | create_deployment.py:90 | the result is a prefix; every character cut is in the set; the result does not end with one |
| Text.Strip | create_deployment.py:90 | the result is a slice; the characters cut on both sides are in the set; its ends are not |
| Text.LStripPrefix | create_deployment.py:90 | a prefix made only of stripped characters disappears entirely |
| Text.StripBridgeSetting | create_deployment.py:89-90 | `strip('bridge=')` of `bridge=<b>` is `b` when `b` starts and ends outside those characters |
| Text.NatToString | create_deployment.py:68 | the decimal text is non-empty, all digits, and has no leading zero |
| Text.ParseDigits | create_deployment.py:327 | a value exactly for non-empty digit strings |
| Text.ParseNatToString | create_deployment.py:327 | reading back a natural number's decimal text gives the number |
| Text.ParseIntToString | create_deployment.py:68 | `int(str(i)) == i` for every integer |
| Text.ParseNegative | create_deployment.py:327 | `-<digits>` reads back as the negated number |
| Text.ParseNonNegative | create_deployment.py:327 | `<digits>` reads back as the number |
| Text.IntToStringInjective | create_deployment.py:68 | distinct integers have distinct decimal texts |
| Text.NatToStringInjective | create_deployment.py:68 | distinct natural numbers have distinct decimal texts |
| Base64.Sextet | create_deployment.py:207 | an alphabet character is never `=` or `,` |
| Base64.SextetValue | create_deployment.py:207 | a decoded character is a 6-bit value |
| Base64.SextetRoundTrip | create_deployment.py:207 | decoding an alphabet character gives its index |
| Base64.Encode | create_deployment.py:207 | the encoding has 4 characters per started group of 3 bytes |
| Base64.Single | create_deployment.py:207 | a final single byte encodes as four comma-free characters |
| Base64.Pair | create_deployment.py:207 | a final pair of bytes encodes as four comma-free characters |
| Base64.Quad | create_deployment.py:207 | a full group encodes as four comma-free characters |
| Base64.EncodeCommaFree | create_deployment.py:206-207 | the encoded serial holds no comma, so it cannot split the `smbios1` value |
| Base64.DecodeFullGroup | create_deployment.py:207 | four alphabet characters decode to their group's three bytes, followed by the rest |
| Base64.GroupOfBytes | create_deployment.py:207 | the sextets of three bytes reassemble into those bytes |
| Base64.DecodePadded2 | create_deployment.py:207 | a group padded with `==` decodes to one byte |
| Base64.DecodePadded1 | create_deployment.py:207 | a group padded with `=` decodes to two bytes |
| Base64.DecodeSingle | create_deployment.py:207 | the encoding of a final byte decodes to it |
| Base64.DecodePair | create_deployment.py:207 | the encoding of a final pair decodes to it |
| Base64.DecodeQuad | create_deployment.py:207 | the encoding of a full group decodes to it, followed by the rest |
| Base64.DecodeEncode | create_deployment.py:207 | decoding the encoding of any byte string gives it back |
| Base64.AsciiBytes | create_deployment.py:207 | `bytes(s, 'ascii')` succeeds exactly for ASCII text, one byte per character with its code |
| Base64.AsciiRoundTrip | create_deployment.py:207 | the bytes of ASCII text read back as that text |
| Format.ParseField | create_deployment.py:200-204 | a recognised field name spells back to the same text |
| Format.RenderStep | create_deployment.py:200-204 | a literal character (doubled if a brace) renders as itself before the rest |
| Format.RenderEscape | create_deployment.py:200-204 | literal text with its braces doubled renders as itself |
| Format.RenderPlaceholder | create_deployment.py:200-204 | `{name}`, `{id}` and `{deployment}` render as the keyword's value |
| Format.RenderSpell | create_deployment.py:200-204 | every template made of text and the three placeholders renders to the substitution it means |
| Format.RenderPlain | create_deployment.py:200-204 | a template without braces renders unchanged |
| Registry.FoldKeys | create_deployment.py:305 | a name is in the merged registry exactly when some record carries it |
| Registry.FoldLast | create_deployment.py:305 | the last record of a name decides its slot |
| Registry.ResolveKnown | create_deployment.py:310-311 | a known name resolves to its slot with no write |
| Registry.ResolveUnknown | create_deployment.py:312-317 | an unknown name gets slot `len + 1`, appended to the written registry |
| Registry.ResolveRemoveUnknown | create_deployment.py:313-314 | with `--remove` an unknown name is an error |
| Registry.ResolveStable | create_deployment.py:303-318 | resolving again after the write gives the same slot and no write |
| Registry.CanonicalSlot | create_deployment.py:315 | in a registry the tool built, the i-th name has slot i + 1 |
| Registry.ResolvePreservesCanonical | create_deployment.py:315-316 | resolution keeps such a registry canonical, and a new slot belongs to no other name |
| Registry.CanonicalDistinctSlots | create_deployment.py:311 | distinct names have distinct slots |
| Registry.HostIdInjective | create_deployment.py:318 | `slot * 10000 + id` determines slot and id for ids in 0..9999 |
| Registry.DeploymentsDoNotCollide | create_deployment.py:331 | VMs of two deployments never share a platform id |
| Registry.TwoDeploymentsFromEmpty | create_deployment.py:303-318 | from an empty registry two names get slots 1 and 2 |
| Naming.NetworkName | create_deployment.py:65-72 | a number names `vmbr<base+n>`; a `vmbr...` string names itself; anything else is an error |
| Naming.NumberedBridge | create_deployment.py:66-68 | the number read from a numbered bridge name is `base + n` |
| Naming.NumberedBridgesDistinct | create_deployment.py:66-68 | two numeric references name the same bridge exactly when their sums agree |
| Naming.Bridges | create_deployment.py:74-80 | the bridge list is no longer than the interface list |
| Naming.BridgesMember | create_deployment.py:74-80 | the bridges are exactly the interfaces named `vmbr...` |
| Naming.BridgesAppend | create_deployment.py:74-80 | a new interface extends the bridge list by itself if it is a bridge |
| Naming.HasNetwork | create_deployment.py:93-94 | defined exactly when the name is; true exactly when the named bridge is listed |
| Naming.Unbound | create_deployment.py:91 | `set(networks) - bound` holds exactly the listed bridges that are not bound |
| Naming.WrittenBridgeIsBound | create_deployment.py:88-90 | the option value `<nic>,bridge=<b>` written at line 232 reads back as binding `b` |
| Naming.SettingSplit | create_deployment.py:228 | `<nic>,bridge=<b>` splits into the NIC type's pieces followed by `bridge=<b>` |
| Naming.BridgesOfMember | create_deployment.py:88-90 | every `bridge=` piece of a value contributes its stripped name |
| Naming.NumberedBridgeShape | create_deployment.py:68 | a numbered bridge name is comma-free and starts and ends outside `bridge=` |
| VmOptions.Merge | create_deployment.py:194-195 | the keys are the union; the VM's own value wins over the global one |
| VmOptions.SerialRoundTrip | create_deployment.py:205-207 | the `smbios1` setting written for an ASCII serial reads back as the serial |
| VmOptions.ConfiguredOptions | create_deployment.py:199-207 | building the options fails only when a serial template is present |
| VmOptions.ConfiguredOptionsOk | create_deployment.py:199-207 | it succeeds exactly when there is no serial, or the serial renders and is ASCII |
| VmOptions.ConfiguredOptionsKeys | create_deployment.py:194-207 | the keys are the merged keys less `serial`, plus `vmid`, `name` and, for a serial, `smbios1` |
| VmOptions.ConfiguredOptionsValues | create_deployment.py:194-198 | name is `<deployment>-<vm>`; vmid is the id; other options keep the merged value |
| VmOptions.ConfiguredOptionsSerial | create_deployment.py:199-207 | `smbios1` carries the rendered serial; without a serial a given `smbios1` is kept |
| VmOptions.NetKeyInjective | create_deployment.py:211-212 | `net<i>` and `net<j>` coincide exactly when i = j |
| VmOptions.NetKeyIsNet | create_deployment.py:232 | every NIC key starts with `net` |
| VmOptions.StepAtFrame | create_deployment.py:231-232 | one round of the NIC loop leaves every other key alone |
| VmOptions.StepAtKey | create_deployment.py:225-232 | a round writes `<nic>,bridge=<b>` exactly when no option attaches the bridge yet |
| VmOptions.AttachPrefixStep | create_deployment.py:217-233 | the loop after k + 1 networks is one round applied to the loop after k |
| VmOptions.AttachTail | create_deployment.py:217-233 | later rounds do not change a key that none of their indices name |
| VmOptions.AttachFrame | create_deployment.py:217-233 | the loop changes no key outside its `net<i>` range |
| VmOptions.AttachPosition | create_deployment.py:217-233 | the j-th network sets `net<i+j>` unless already attached, in which case that key keeps its original value |
| VmOptions.NicValueAttaches | create_deployment.py:228 | a written NIC value attaches its bridge and no other |
| VmOptions.StepBound | create_deployment.py:225-232 | one round never gives a bridge a second attaching option |
| VmOptions.NoSecondAttachment | create_deployment.py:217-233 | the loop attaches each bridge at most once more than it already was |
| VmOptions.AttachAll | create_deployment.py:217-233 | with the loop's keys free, every requested bridge ends up attached |
| VmOptions.AttachKeySurvives | create_deployment.py:217-233 | with the loop's keys free, nothing a round writes is overwritten later |
| Platform.Stopped | create_deployment.py:126 | a stop request keeps the configuration and halts a VM whose count is spent |
| Platform.Without | create_deployment.py:129 | the listing without an id holds exactly the other ids |
| Platform.Remove | create_deployment.py:106 | the interface list without a name holds exactly the others |
| Platform.WithoutDistinct | create_deployment.py:129 | removing an id keeps the listing free of duplicates |
| Platform.FirstNamed | create_deployment.py:31-35 | the index of the first VM carrying the name, none before it |
| Platform.FindTemplate | create_deployment.py:31-35 | none exactly when no VM carries the name; otherwise the first one in listing order |
| Platform.Host.constructor | create_deployment.py:25-26 | a host with the given state and an empty log |
| Platform.Host.Status | create_deployment.py:40 | a status exactly for a VM that exists |
| Platform.Host.PostStop | create_deployment.py:126 | the VM takes one stop step; the request is logged |
| Platform.Host.DeleteVm | create_deployment.py:129 | the VM leaves the map and the listing; the request is logged |
| Platform.Host.CloneVm | create_deployment.py:114 | the clone is a stopped copy of the template's configuration, listed last |
| Platform.Host.SetVmConfig | create_deployment.py:136 | the options are written over the VM's configuration |
| Platform.Host.StartVm | create_deployment.py:118 | the VM is running |
| Platform.Host.PostBridge | create_deployment.py:99 | the bridge is appended to the interfaces |
| Platform.Host.DeleteBridgeIface | create_deployment.py:106 | the interface is removed |
| Platform.Host.PutNetwork | create_deployment.py:109 | only the commit is logged |
| Platform.Host.SetDescription | create_deployment.py:58-60 | the registry in the host's description is replaced |
| Node.UnionMember | create_deployment.py:84-90 | a bridge is in the union exactly when it is in one of the sets |
| Node.BoundSetsIndex | create_deployment.py:85-90 | the i-th set is what the i-th listed VM's configuration binds |
| Node.BoundOnHostStep | create_deployment.py:85-90 | one more listed VM adds exactly what its configuration binds |
| Node.BoundOnHostMember | create_deployment.py:82-90 | a bridge is bound exactly when some listed VM's configuration binds it |
| Node.BridgesOfValue | create_deployment.py:88-90 | the loop over a value's pieces collects exactly its bridges |
| Node.BoundByAdd | create_deployment.py:86-90 | one more option adds its bridges if its key starts with `net` |
| Node.BoundByConfig | create_deployment.py:86-90 | the loop over a configuration collects exactly the bridges it binds |
| Node.StopsSent | create_deployment.py:121-128 | never more stop requests than the budget |
| Node.AfterStopsStep | create_deployment.py:123-126 | each further stop request is one stop step |
| Node.StopsSentClosedForm | create_deployment.py:121-128 | none for a VM not running, else as many as it needs but at most the budget |
| Node.StopsSentEnds | create_deployment.py:123 | the loop ends with the budget spent or the VM not running |
| Node.Stops | create_deployment.py:126 | k stop requests |
| Node.StopsAll | create_deployment.py:126 | each of them stops the same VM |
| Node.ProxmoxNode.constructor | create_deployment.py:19-29 | base id 0, and the bridge list read from the host |
| Node.ProxmoxNode.GetNetworks | create_deployment.py:74-80 | the cached list becomes the host's bridges |
| Node.ProxmoxNode.GetUnboundNetworks | create_deployment.py:82-91 | cached bridges that no listed VM's `net*` options name |
| Node.ProxmoxNode.Exists | create_deployment.py:37-43 | true exactly when a VM sits at `base + id` |
| Node.ProxmoxNode.GetName | create_deployment.py:45-48 | that VM's name, or the API error when there is none |
| Node.ProxmoxNode.GetNodeDeployments | create_deployment.py:50-56 | the stored records, or none |
| Node.ProxmoxNode.SetNodeDeployments | create_deployment.py:58-60 | the records are stored and the write logged |
| Node.ProxmoxNode.SetBaseId | create_deployment.py:62-63 | the base id is set |
| Node.ProxmoxNode.CreateNetwork | create_deployment.py:96-101 | the named bridge is created and cached, or the name error and no change |
| Node.ProxmoxNode.DeleteNetwork | create_deployment.py:103-106 | under dry run nothing changes; otherwise the interface is deleted |
| Node.ProxmoxNode.CommitNetworkConfig | create_deployment.py:108-109 | only the commit is logged |
| Node.ProxmoxNode.Clone | create_deployment.py:111-114 | the template is cloned to `base + id` when the template exists and the id is free |
| Node.ProxmoxNode.Start | create_deployment.py:116-118 | the VM at `base + id` is running |
| Node.ProxmoxNode.Destroy | create_deployment.py:120-129 | the stop requests the loop sends, then the delete; the VM is gone |
| Node.ProxmoxNode.StopWhileRunning | create_deployment.py:121-128 | the loop sends the stop requests its closed form predicts |
| Node.ProxmoxNode.SetOptions | create_deployment.py:131-136 | the options less `vmid` are written; a missing `vmid` is an error |
| Provision.Confirm | create_deployment.py:181-187 | yes exactly under force or an answer of `y`/`Y`; the end of input is an error |
| Provision.ConfirmDefaultsToNo | create_deployment.py:184-187 | any other answer declines |
| Provision.NetKeysBound | create_deployment.py:210-213 | the first free NIC index is at most the number of options |
| Provision.NetKeysCount | create_deployment.py:210-213 | the first j NIC keys are j distinct keys |
| Provision.FirstFreeNet | create_deployment.py:210-213 | the loop stops at the first unused `net<i>` |
| Provision.FirstFreeUnique | create_deployment.py:210-213 | there is only one such index |
| Provision.ResolveNamesSpec | create_deployment.py:214-218 | the names resolve exactly when each reference does, element by element |
| Provision.ResolveNamesAllOk | create_deployment.py:217-218 | if each reference resolves, the whole list does |
| Provision.ResolveNamesOkAll | create_deployment.py:217-218 | if the list resolves, each reference does |
| Provision.ResolveNamesError | create_deployment.py:217-218 | the first bad reference's error is the list's |
| Provision.ResolveNamesPrefixError | create_deployment.py:217-218 | any bad reference makes the list fail |
| Provision.ResolveNamesStep | create_deployment.py:217-218 | one more resolved reference extends the names by it |
| Provision.Creations | create_deployment.py:221 | one bridge creation per created name, in order |
| Provision.CreationsAppend | create_deployment.py:221 | one more created bridge adds its request |
| Provision.EnsureBridge | create_deployment.py:218-224 | a missing bridge is created only on confirmation, else the run fails |
| Provision.MissingStep | create_deployment.py:217-222 | a new name is missing exactly when neither known nor already missing |
| Provision.MissingMember | create_deployment.py:217-222 | a name is created exactly when requested and not on the host |
| Provision.MissingUnique | create_deployment.py:217-222 | no bridge is created twice |
| Provision.EnsureRound | create_deployment.py:217-224 | one round of the network loop extends the created list as `Missing` says |
| Provision.BridgesSplit | create_deployment.py:101 | the refreshed bridge list is the old one plus the created bridges |
| Provision.AddNetworks | create_deployment.py:214-224 | the bridges created are exactly the missing requested ones, each once |
| Provision.AlreadyAdded | create_deployment.py:225-230 | the search finds exactly an option attaching the bridge |
| Provision.AttachNics | create_deployment.py:217-233 | the NIC loop computes `Attach` |
| Provision.ProvideNetworks | create_deployment.py:214-238 | the creations, then one commit if anything was created |
| Provision.CreateVm | create_deployment.py:190-261 | the errors of each step, and on success the network calls then clone, configure and start |
| Provision.CreationsNoneTouchVm | create_deployment.py:221 | network creation changes no VM |
| Provision.VmKeyIsNotNet | create_deployment.py:135 | the NIC loop keeps `vmid`, so `set_options` can delete it |
| Provision.ClearSlot | create_deployment.py:245-254 | an occupied id is an error unless force-delete and names match; then the old VM is destroyed |
| Provision.Absent | create_deployment.py:129 | removing an unlisted id changes nothing |
| Provision.DestroyCallsTo | create_deployment.py:120-129 | every destroy request targets the VM |
| Provision.CollideAndClone | create_deployment.py:241-261 | template lookup, collision policy, then clone, configure, start |
| Provision.CloneAndConfigure | create_deployment.py:256-261 | clone, configure without `vmid`, start under autostart |
| Driver.ResolveSlot | create_deployment.py:301-320 | the registry resolution, its write-back, and the base id `slot * 10000` |
| Driver.ParseInts | create_deployment.py:327 | every piece parses, or some piece does not |
| Driver.MakeRange | create_deployment.py:327 | `range(*ints)`: 1 to 3 arguments with a non-zero step, else an error |
| Driver.RangeFilter | create_deployment.py:325-327 | no `--range` text means no filter; a built range has a non-zero step |
| Driver.UpElement | create_deployment.py:332 | a member of an upward range is its ((x - start) / step)-th element |
| Driver.UpContains | create_deployment.py:332 | every element of an upward range is a member |
| Driver.ContainsUp | create_deployment.py:332 | membership in an upward range is being one of its elements |
| Driver.MirrorDown | create_deployment.py:332 | a downward range is the mirror image of an upward one |
| Driver.ContainsElements | create_deployment.py:332 | `x in range(...)` exactly when x is `start + step * i` for some i below `len` |
| Driver.SelectedElements | create_deployment.py:330-340 | an entry is processed exactly when it passes the range, the allow-list and the exclude-list |
| Driver.SelectedIdsMember | create_deployment.py:329-340 | an id is selected exactly when some selected entry has it |
| Driver.SelectedIdsStep | create_deployment.py:329-340 | one more entry adds its id if selected |
| Driver.SelectedIdsPrefix | create_deployment.py:329-340 | the entries visited so far select no id the whole list does not |
| Driver.OnlyToJoin | create_deployment.py:348 | network calls followed by calls to one VM change only that VM |
| Driver.CreateCallsClone | create_deployment.py:256 | creating a VM clones a template to its id |
| Driver.ProcessOne | create_deployment.py:341-348 | dry run sends nothing; remove destroys the VM; create clones it; all calls to that VM |
| Driver.Visit | create_deployment.py:330-348 | a rejected entry is skipped; a selected entry is processed |
| Driver.ClonedStep | create_deployment.py:329-348 | the cloned-so-far fact moves over one more entry |
| Driver.Advance | create_deployment.py:329-348 | one turn of the loop keeps the loop's facts |
| Driver.ProcessVms | create_deployment.py:329-348 | only selected VMs are touched; remove deletes exactly them; create clones each of them; dry run changes nothing |
| Driver.UnboundUnused | create_deployment.py:293 | a bridge is a cleanup candidate exactly when no listed VM binds it |
| Driver.Deletions | create_deployment.py:297 | one delete request per deleted bridge |
| Driver.DeletionsIndex | create_deployment.py:297 | the j-th delete request is for the j-th deleted bridge |
| Driver.RemoveAllMember | create_deployment.py:297 | the interfaces left are exactly those not deleted |
| Driver.HandledStep | create_deployment.py:293-297 | the cleanup loop's fact moves over one more bridge |
| Driver.CleanupOne | create_deployment.py:294-297 | a bridge is deleted exactly when approved and not a dry run; no answer is an error |
| Driver.DeleteUnbound | create_deployment.py:293-297 | every unbound bridge is deleted exactly when approved; nothing else is |
| Driver.CleanupNetworks | create_deployment.py:290-299 | the bridges deleted are the approved unbound ones, then one commit |
| Driver.Deploy | create_deployment.py:290-348 | cleanup touches no VM; otherwise the resolution's error, its registry write sent first, a bad range stopping after it, and the VM loop's outcome: only selected VMs touched, remove deleting exactly them, create cloning each of them |

## Left out

- Reading the YAML configuration and the deployment description over HTTP, `argparse`, and the `DEPLOYMENT_URL` variable: the model starts from a parsed `Deployment` and `Args`.
- The Proxmox API's HTTP transport and its authentication: the host is the `Host` class, and only the state the tool reads or changes is kept.
- The sleeps (`NETWORK_DELAY`, the 1 s and 2 s settles) and the log and debug messages: they change no state the tool reads.
- Option values other than strings: an option map is `map<string, string>`, so the YAML values and their `str()` are not modelled.
- The `str.format` features a serial template might use beyond `{name}`, `{id}`, `{deployment}` and doubled braces (conversions, format specifications, positional fields): they are treated as a format error.
- The `generic-jumper` scripts: they are not part of this model.
- A description field holding YAML without a `deployments` list: the tool then crashes in `len(None)`; the model reads it as an empty registry.
- Whitespace, `+` signs and underscores in `--range` pieces: `ParseInt` accepts an optional `-` and decimal digits only.
- The prompt texts of `confirm`: only the answer matters. Answers are given per bridge name, and there is a separate map for the cleanup questions.
- The platform accepting a bridge that already exists, or the deletion of an interface it does not have: `Host.PostBridge` appends and `Host.DeleteBridgeIface` removes whatever is there.
- Records with several keys: the tool merges whatever dictionaries the list holds (`{**a, **b}`) and counts list entries with `len()`; a `Record` is one (name, slot) pair, so a hand-edited record with several names has no counterpart.
- A VM with no `name` option: `vm['name']` raises KeyError in `find_template_id` and `get_name`; `Platform.VmName` reads it as "", which matches neither a template name (never empty) nor a VM's full name (always holding a '-'), so the outcome of every comparison is the tool's.
- The `__func__` in `get_network_name`'s error call is undefined, so a bad network reference ends the run with a NameError rather than the tool's message; the model records it as `UnexpectedNetworkType`.
- VmOptions.ConfiguredOptions: its own contract only says when it can fail; the keys, values and serial are stated by `ConfiguredOptionsOk`, `ConfiguredOptionsKeys`, `ConfiguredOptionsValues` and `ConfiguredOptionsSerial`.
- Driver.RangeFilter: its contract covers only the empty text and the step; what a given text builds is stated by `ParseInts` and `MakeRange`.
- Provision.CreateVm: it states the calls sent, not the resulting VM map.
- Driver.ProcessVms: in create mode it states only that each selected entry's VM is cloned and that nothing else is touched, because of the `CreateVm` limitation above.
- Driver.Deploy: under `--cleanup-networks` it states only that no VM changes; the deletions are stated by `CleanupNetworks`.
- Driver.DeleteUnbound: Python visits a set in an order it does not promise; the model picks the next bridge arbitrarily, so no order of the deletions is stated.
- Node.ProxmoxNode.Destroy: it does not model the time the loop waits, only the number of stop requests.
