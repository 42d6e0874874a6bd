/** The deployment registry: the list of `{deployment name: slot}` records the
    tool keeps in the host's description field, how a name is resolved to a
    slot (allocating a new slot on first sight), and the VM-id range a slot
    owns. The YAML text of the description is not modelled: a record list is
    the already-parsed value. */
module Registry {
  import opened Wrappers

  /** One stored record `{name: slot}`. */
  type Record = (string, int)

  /** `dict(functools.reduce(lambda a, b: {**a, **b}, records))`: the records
      merged into one map, a later record winning over an earlier one with the
      same name. (On an empty list `reduce` raises TypeError, which the tool
      catches and replaces by an empty map: the same value.) */
  function Fold(reg: seq<Record>): map<string, int>
    decreases |reg|
  {
    if reg == [] then map[]
    else
      var last := reg[|reg| - 1];
      Fold(reg[..|reg| - 1])[last.0 := last.1]
  }

  /** The merged map holds exactly the names of the records. */
  lemma {:induction false} FoldKeys(reg: seq<Record>, name: string)
    ensures name in Fold(reg) <==> exists i :: 0 <= i < |reg| && reg[i].0 == name
    decreases |reg|
  {
    if reg != [] {
      var init := reg[..|reg| - 1];
      FoldKeys(init, name);
      if name in Fold(init) {
        var i :| 0 <= i < |init| && init[i].0 == name;
        assert reg[i].0 == name;
      }
      if exists i :: 0 <= i < |reg| && reg[i].0 == name {
        var i :| 0 <= i < |reg| && reg[i].0 == name;
        if i < |init| {
          assert init[i].0 == name;
        }
      }
    }
  }

  /** A name maps to the slot of its last record. */
  lemma {:induction false} FoldLast(reg: seq<Record>, i: nat)
    requires i < |reg|
    requires forall j :: i < j < |reg| ==> reg[j].0 != reg[i].0
    ensures reg[i].0 in Fold(reg) && Fold(reg)[reg[i].0] == reg[i].1
    decreases |reg|
  {
    if i < |reg| - 1 {
      var init := reg[..|reg| - 1];
      FoldLast(init, i);
    }
  }

  /** What resolving a name yields: its slot, and the full record list to
      write back to the host when the name was new. */
  datatype Resolution = Resolution(slot: int, update: Option<seq<Record>>)

  /** Resolution of `name` against the stored records. A known name keeps its
      slot; an unknown one fails under --remove and is otherwise given the
      slot `len(records) + 1`, appended at the end of the list. */
  function Resolve(reg: seq<Record>, name: string, remove: bool): Result<Resolution> {
    var known := Fold(reg);
    if name in known then Ok(Resolution(known[name], None))
    else if remove then Err(DeploymentNotFound(name))
    else
      var slot := |reg| + 1;
      Ok(Resolution(slot, Some(reg + [(name, slot)])))
  }

  /** The first VM id of a slot's range. */
  function BaseId(slot: int): int {
    slot * 10000
  }

  /** The platform id of a VM: the slot's base plus the VM's local id. */
  function HostId(baseId: int, localId: int): int {
    baseId + localId
  }

  function Written(reg: seq<Record>, res: Resolution): seq<Record> {
    if res.update.Some? then res.update.value else reg
  }

  // ---------------------------------------------------------------------
  // Properties of one resolution

  /** A name already present resolves to the slot of its last record, and
      nothing is written back. */
  lemma ResolveKnown(reg: seq<Record>, name: string, remove: bool, i: nat)
    requires i < |reg| && reg[i].0 == name
    requires forall j :: i < j < |reg| ==> reg[j].0 != name
    ensures Resolve(reg, name, remove) == Ok(Resolution(reg[i].1, None))
  {
    FoldLast(reg, i);
  }

  /** An unknown name in create mode gets slot `|reg| + 1`; the list written
      back is the old one, unchanged, with exactly one record appended. */
  lemma ResolveUnknown(reg: seq<Record>, name: string)
    requires forall i :: 0 <= i < |reg| ==> reg[i].0 != name
    ensures Resolve(reg, name, false).Ok?
    ensures var res := Resolve(reg, name, false).value;
      && res.slot == |reg| + 1
      && res.update.Some?
      && |res.update.value| == |reg| + 1
      && res.update.value[..|reg|] == reg
      && res.update.value[|reg|] == (name, |reg| + 1)
  {
    FoldKeys(reg, name);
    var u := reg + [(name, |reg| + 1)];
    assert u[..|reg|] == reg;
  }

  /** An unknown name under --remove is an error, and so nothing is written. */
  lemma ResolveRemoveUnknown(reg: seq<Record>, name: string)
    requires forall i :: 0 <= i < |reg| ==> reg[i].0 != name
    ensures Resolve(reg, name, true) == Err(DeploymentNotFound(name))
  {
    FoldKeys(reg, name);
  }

  /** Resolving the same name again, against the records as written back by
      the first resolution, gives the same slot and writes nothing, whatever
      the mode of the second run. */
  lemma ResolveStable(reg: seq<Record>, name: string, remove: bool, again: bool)
    requires Resolve(reg, name, remove).Ok?
    ensures var res := Resolve(reg, name, remove).value;
      Resolve(Written(reg, res), name, again) == Ok(Resolution(res.slot, None))
  {
    var res := Resolve(reg, name, remove).value;
    if res.update.Some? {
      var u := res.update.value;
      assert u[|u| - 1] == (name, |reg| + 1);
      FoldLast(u, |u| - 1);
    }
  }

  // ---------------------------------------------------------------------
  // The invariant of registries the tool itself has written

  /** Records as the tool leaves them when it starts from an empty registry:
      record `i` holds slot `i + 1` and no name appears twice. */
  ghost predicate Canonical(reg: seq<Record>) {
    && (forall i :: 0 <= i < |reg| ==> reg[i].1 == i + 1)
    && (forall i, j :: 0 <= i < j < |reg| ==> reg[i].0 != reg[j].0)
  }

  lemma CanonicalSlot(reg: seq<Record>, i: nat)
    requires Canonical(reg) && i < |reg|
    ensures reg[i].0 in Fold(reg) && Fold(reg)[reg[i].0] == i + 1
  {
    FoldLast(reg, i);
  }

  /** Resolution keeps the registry canonical, and a newly allocated slot is
      not the slot of any name already registered. */
  lemma ResolvePreservesCanonical(reg: seq<Record>, name: string, remove: bool)
    requires Canonical(reg) && Resolve(reg, name, remove).Ok?
    ensures var res := Resolve(reg, name, remove).value;
      && Canonical(Written(reg, res))
      && (res.update.Some? ==> forall other :: other in Fold(reg) ==> Fold(reg)[other] != res.slot)
  {
    var res := Resolve(reg, name, remove).value;
    if res.update.Some? {
      FoldKeys(reg, name);
      forall other | other in Fold(reg) ensures Fold(reg)[other] != res.slot {
        FoldKeys(reg, other);
        var i :| 0 <= i < |reg| && reg[i].0 == other;
        CanonicalSlot(reg, i);
      }
    }
  }

  /** In a canonical registry two different names never share a slot. */
  lemma CanonicalDistinctSlots(reg: seq<Record>, a: string, b: string)
    requires Canonical(reg) && a in Fold(reg) && b in Fold(reg) && a != b
    ensures Fold(reg)[a] != Fold(reg)[b]
  {
    FoldKeys(reg, a);
    FoldKeys(reg, b);
    var i :| 0 <= i < |reg| && reg[i].0 == a;
    var j :| 0 <= j < |reg| && reg[j].0 == b;
    CanonicalSlot(reg, i);
    CanonicalSlot(reg, j);
  }

  /** Two different slots own disjoint id ranges: with local ids in
      [0, 9999], platform ids are equal exactly when slots and local ids are. */
  lemma HostIdInjective(slot1: int, local1: int, slot2: int, local2: int)
    requires 0 <= local1 < 10000 && 0 <= local2 < 10000
    ensures HostId(BaseId(slot1), local1) == HostId(BaseId(slot2), local2)
            <==> slot1 == slot2 && local1 == local2
  {
    if slot1 < slot2 {
      assert BaseId(slot1) + 10000 <= BaseId(slot2);
    } else if slot2 < slot1 {
      assert BaseId(slot2) + 10000 <= BaseId(slot1);
    }
  }

  /** Two different deployments resolved on the same host never produce the
      same platform id for VMs whose local ids lie in [0, 9999]. */
  lemma DeploymentsDoNotCollide(reg: seq<Record>, a: string, b: string, localA: int, localB: int)
    requires Canonical(reg) && a in Fold(reg) && b in Fold(reg) && a != b
    requires 0 <= localA < 10000 && 0 <= localB < 10000
    ensures HostId(BaseId(Fold(reg)[a]), localA) != HostId(BaseId(Fold(reg)[b]), localB)
  {
    CanonicalDistinctSlots(reg, a, b);
    HostIdInjective(Fold(reg)[a], localA, Fold(reg)[b], localB);
  }

  /** Starting from an empty registry, two different names resolved one
      after the other get slots 1 and 2. */
  lemma TwoDeploymentsFromEmpty(a: string, b: string)
    requires a != b
    ensures Resolve([], a, false) == Ok(Resolution(1, Some([(a, 1)])))
    ensures Resolve([(a, 1)], b, false) == Ok(Resolution(2, Some([(a, 1), (b, 2)])))
  {
    assert Fold([]) == map[];
    assert [] + [(a, 1)] == [(a, 1)];
    assert Fold([(a, 1)]) == map[a := 1] by {
      assert [(a, 1)][..0] == [];
    }
    assert [(a, 1)] + [(b, 2)] == [(a, 1), (b, 2)];
  }
}
