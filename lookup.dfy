/** Selecting a virtual machine from the inventory, and the `--prune` step built on it. */
module Lookup {
  import opened Wrappers

  /** What the lookups read from an inventory entry: its name and its configuration UUID. */
  datatype Vm = Vm(name: string, uuid: string)

  /** The three ways a lookup by name ends: no VM (an `IndexError` on the empty match list),
      the one VM carrying the name, or several, which the lookup answers with `None`. */
  datatype NameLookup = NotFound | Found(vm: Vm) | Ambiguous

  /** Every VM of the inventory carrying `vmname`, in inventory order. */
  function Named(vms: seq<Vm>, vmname: string): (r: seq<Vm>)
    ensures |r| <= |vms|
    ensures forall v :: v in r <==> v in vms && v.name == vmname
  {
    if |vms| == 0 then []
    else
      var last := vms[|vms| - 1];
      Named(vms[..|vms| - 1], vmname) + (if last.name == vmname then [last] else [])
  }

  /** The selection the name lookup makes from its match list. */
  function SelectByName(vms: seq<Vm>, vmname: string): NameLookup
  {
    var matches := Named(vms, vmname);
    if |matches| > 1 then Ambiguous
    else if |matches| == 0 then NotFound
    else Found(matches[0])
  }

  /** Two different inventory positions carrying the name make the match list at least two long. */
  lemma {:induction false} TwoMatchesCounted(vms: seq<Vm>, vmname: string, i: int, j: int)
    requires 0 <= i < j < |vms|
    requires vms[i].name == vmname && vms[j].name == vmname
    ensures |Named(vms, vmname)| >= 2
  {
    var front := vms[..|vms| - 1];
    if j < |vms| - 1 {
      assert front[i] == vms[i] && front[j] == vms[j];
      TwoMatchesCounted(front, vmname, i, j);
    } else {
      assert front[i] == vms[i];
      assert vms[i] in Named(front, vmname);
    }
  }

  /** A match list at least two long comes from two different inventory positions. */
  lemma {:induction false} MatchesHavePositions(vms: seq<Vm>, vmname: string)
    requires |Named(vms, vmname)| >= 2
    ensures exists i, j :: 0 <= i < j < |vms| && vms[i].name == vmname && vms[j].name == vmname
  {
    var front := vms[..|vms| - 1];
    var last := vms[|vms| - 1];
    if |Named(front, vmname)| >= 2 {
      MatchesHavePositions(front, vmname);
      var i, j :| 0 <= i < j < |front| && front[i].name == vmname && front[j].name == vmname;
      assert vms[i] == front[i] && vms[j] == front[j];
    } else {
      assert last.name == vmname;
      var m := Named(front, vmname);
      assert m[0] in m;
      var i :| 0 <= i < |front| && front[i] == m[0];
      assert vms[i] == front[i] && vms[|vms| - 1] == last;
    }
  }

  /** What each outcome of the name lookup says about the inventory: nothing found means no VM
      carries the name; `Ambiguous` means two positions do; `Found` is the one VM that does. */
  lemma SelectByNameMeaning(vms: seq<Vm>, vmname: string)
    ensures SelectByName(vms, vmname) == NotFound <==>
              forall i :: 0 <= i < |vms| ==> vms[i].name != vmname
    ensures SelectByName(vms, vmname) == Ambiguous <==>
              exists i, j :: 0 <= i < j < |vms| && vms[i].name == vmname && vms[j].name == vmname
    ensures SelectByName(vms, vmname).Found? ==>
              exists i :: 0 <= i < |vms| && vms[i] == SelectByName(vms, vmname).vm &&
                vms[i].name == vmname &&
                forall j :: 0 <= j < |vms| && vms[j].name == vmname ==> j == i
  {
    var m := Named(vms, vmname);
    var r := SelectByName(vms, vmname);
    if exists i :: 0 <= i < |vms| && vms[i].name == vmname {
      var i :| 0 <= i < |vms| && vms[i].name == vmname;
      assert vms[i] in m;
    }
    if |m| >= 2 {
      MatchesHavePositions(vms, vmname);
    }
    if exists i, j :: 0 <= i < j < |vms| && vms[i].name == vmname && vms[j].name == vmname {
      var i, j :| 0 <= i < j < |vms| && vms[i].name == vmname && vms[j].name == vmname;
      TwoMatchesCounted(vms, vmname, i, j);
    }
    if r.Found? {
      assert m[0] in m;
      var i :| 0 <= i < |vms| && vms[i] == r.vm;
      forall j | 0 <= j < |vms| && vms[j].name == vmname
        ensures j == i
      {
        if j < i {
          TwoMatchesCounted(vms, vmname, j, i);
        } else if i < j {
          TwoMatchesCounted(vms, vmname, i, j);
        }
      }
    }
  }

  /** Looks a VM up by name: collects every match in inventory order, then answers with the
      single match, with `Ambiguous` when there are several, and with `NotFound` (the
      `IndexError` of indexing an empty list) when there are none. */
  method GetVirtualMachineByName(vms: seq<Vm>, vmname: string) returns (r: NameLookup)
    ensures r == SelectByName(vms, vmname)
  {
    var vmList := [];
    var i := 0;
    while i < |vms|
      invariant 0 <= i <= |vms|
      invariant vmList == Named(vms[..i], vmname)
    {
      assert vms[..i + 1][..i] == vms[..i];
      if vmname == vms[i].name {
        vmList := vmList + [vms[i]];
      }
      i := i + 1;
    }
    assert vms[..|vms|] == vms;
    if |vmList| > 1 {
      return Ambiguous;
    } else if |vmList| == 0 {
      return NotFound;
    } else {
      return Found(vmList[0]);
    }
  }

  /** Looks a VM up by UUID: the first VM of the inventory whose UUID matches, or `None`. */
  method GetVirtualMachineByUuid(vms: seq<Vm>, vmuuid: string) returns (r: Option<Vm>)
    ensures r.None? <==> forall i :: 0 <= i < |vms| ==> vms[i].uuid != vmuuid
    ensures r.Some? ==>
              exists i :: 0 <= i < |vms| && vms[i] == r.value && vms[i].uuid == vmuuid &&
                forall j :: 0 <= j < i ==> vms[j].uuid != vmuuid
  {
    var i := 0;
    while i < |vms|
      invariant 0 <= i <= |vms|
      invariant forall j :: 0 <= j < i ==> vms[j].uuid != vmuuid
    {
      if vmuuid == vms[i].uuid {
        return Some(vms[i]);
      }
      i := i + 1;
    }
    return None;
  }

  /** What `--prune` does before a create: delete the one VM of that name, do nothing when the
      lookup raised `IndexError` (swallowed), or fail when the lookup answered `None`, because
      deleting `None` raises an `AttributeError` that nothing catches. */
  datatype PruneOutcome = Delete(vm: Vm) | NothingToPrune | DeleteOfNone

  /** The prune step: look the name up and act on the answer. */
  method Prune(vms: seq<Vm>, vmname: string) returns (o: PruneOutcome)
    ensures o == NothingToPrune <==> forall i :: 0 <= i < |vms| ==> vms[i].name != vmname
    ensures o == DeleteOfNone <==>
              exists i, j :: 0 <= i < j < |vms| && vms[i].name == vmname && vms[j].name == vmname
    ensures o.Delete? ==>
              exists i :: 0 <= i < |vms| && vms[i] == o.vm && vms[i].name == vmname &&
                forall j :: 0 <= j < |vms| && vms[j].name == vmname ==> j == i
  {
    var found := GetVirtualMachineByName(vms, vmname);
    SelectByNameMeaning(vms, vmname);
    match found
    case NotFound => o := NothingToPrune;
    case Found(vm) => o := Delete(vm);
    case Ambiguous => o := DeleteOfNone;
  }
}
