/** The `--create` branch fed by a provisioning-server record: the disks come from the
    record's comma-separated size list, the adapters from its interface table walked in
    sorted key order, skipping sub-interfaces, with `eth1`'s MAC optionally derived from
    its IP address. */
module Cobbler {
  import opened Wrappers
  import opened Errors
  import opened Text
  import opened Devices
  import opened Mac
  import opened Topology

  /** One entry of the record's interface table. */
  datatype Interface = Interface(virtBridge: string, macAddress: Option<string>, ipAddress: string)

  /** The fields of a system record the create branch reads; an absent field is `None`. */
  datatype SystemRecord = SystemRecord(virtType: Option<string>, virtCpus: int, virtRam: int,
                                       comment: string, virtPath: Option<string>,
                                       virtFileSize: Option<string>, interfaces: map<string, Interface>)

  /** The only hypervisor type this tool provisions. */
  const SupportedHypervisor := "vmware"

  /** The interface whose MAC `--genmac` replaces. */
  const GeneratedMacInterface := "eth1"

  /** `str(v)` of an optional text field: the text itself, or "None" when absent. */
  function PyStr(v: Option<string>): (s: string)
    ensures v.Some? ==> s == v.value
    ensures v.None? ==> s == "None" && s != ""
  {
    if v.Some? then v.value else "None"
  }

  /** An alias such as `eth0:1` or a VLAN such as `eth0.100`; these get no adapter. */
  predicate IsSubInterface(name: string)
  {
    ':' in name || '.' in name
  }

  /** The names that get an adapter, in the order given. */
  function Selected(names: seq<string>): seq<string>
  {
    if |names| == 0 then []
    else if IsSubInterface(names[0]) then Selected(names[1..])
    else [names[0]] + Selected(names[1..])
  }

  /** The controller and disks of a record: only when the size text and the path are both
      truthy, one disk per comma-separated size, on the datastore the path names. */
  function RecordDiskPart(record: SystemRecord, scsiType: string): Result<seq<DeviceChange>, Error>
  {
    if PyStr(record.virtFileSize) != "" && Truthy(record.virtPath) then
      DiskPart(Split(PyStr(record.virtFileSize), ','), record.virtPath.value, scsiType)
    else Ok([])
  }

  /** The MAC derived for `eth1` from its IP address. It is worked out once from the table;
      the walk below only asks for it when it reaches `eth1`, so the value chosen when
      there is no `eth1` is never used. */
  function DerivedMac(interfaces: map<string, Interface>): Result<string, Error>
  {
    if GeneratedMacInterface in interfaces then IpAddressToVMwareMac(interfaces[GeneratedMacInterface].ipAddress)
    else Err(MalformedAddress(""))
  }

  /** The MAC the adapter for `name` gets: with `--genmac`, `eth1` gets `derived`, which the
      callers take from DerivedMac (the MAC derived from eth1's IP address); every other
      interface keeps its own. */
  function InterfaceMac(name: string, iface: Interface, genmac: bool, derived: Result<string, Error>)
    : (r: Result<Option<string>, Error>)
    ensures !(genmac && name == GeneratedMacInterface) ==> r == Ok(iface.macAddress)
    ensures genmac && name == GeneratedMacInterface ==>
              (r.Ok? <==> derived.Ok?) && (r.Err? ==> r.error == derived.error)
              && (r.Ok? ==> r.value == Some(derived.value))
  {
    if genmac && name == GeneratedMacInterface then
      var mac :- derived;
      Ok(Some(mac))
    else Ok(iface.macAddress)
  }

  /** The adapter for interface `name`: on its bridge, with the MAC InterfaceMac gives it. */
  function InterfaceNic(name: string, iface: Interface, genmac: bool, derived: Result<string, Error>,
                        nicType: string, nicKey: int): Result<DeviceChange, Error>
  {
    var mac :- InterfaceMac(name, iface, genmac, derived);
    CreateNicSpec(nicKey, iface.virtBridge, mac, nicType)
  }

  /** The adapters for the interfaces `names` lists, keys counting up from `nicKey`: one per
      name that is not a sub-interface, in order, on its bridge, with its MAC. */
  function InterfaceNics(interfaces: map<string, Interface>, names: seq<string>, genmac: bool,
                         derived: Result<string, Error>, nicType: string, nicKey: int)
    : Result<seq<DeviceChange>, Error>
    requires forall k :: k in names ==> k in interfaces
    decreases |names|
  {
    if |names| == 0 then Ok([])
    else
      var k := names[0];
      if IsSubInterface(k) then InterfaceNics(interfaces, names[1..], genmac, derived, nicType, nicKey)
      else
        var nic :- InterfaceNic(k, interfaces[k], genmac, derived, nicType, nicKey);
        var rest :- InterfaceNics(interfaces, names[1..], genmac, derived, nicType, nicKey + 1);
        Ok([nic] + rest)
  }

  /** The interface names in `sorted` order. */
  ghost function SortedKeysOf(keys: set<string>): (ks: seq<string>)
    ensures SortedEnumeration(ks, keys)
  {
    SortedEnumerationExists(keys);
    var ks :| SortedEnumeration(ks, keys);
    ks
  }

  /** The adapters of a record: its interface table walked in sorted key order. */
  ghost function RecordNics(record: SystemRecord, genmac: bool, nicType: string): Result<seq<DeviceChange>, Error>
  {
    InterfaceNics(record.interfaces, SortedKeysOf(record.interfaces.Keys), genmac,
                  DerivedMac(record.interfaces), nicType, 0)
  }

  /** The device list the provisioning-server path builds. */
  ghost function RecordDevices(record: SystemRecord, genmac: bool, scsiType: string, nicType: string)
    : Result<seq<DeviceChange>, Error>
  {
    Assemble(RecordDiskPart(record, scsiType), RecordNics(record, genmac, nicType))
  }

  /** An interface entry with its MAC replaced by the one derived from its IP address
      (unchanged when no MAC can be derived, in which case the run stops anyway). */
  function WithDerivedMac(iface: Interface): Interface
  {
    match IpAddressToVMwareMac(iface.ipAddress)
    case Ok(mac) => iface.(macAddress := Some(mac))
    case Err(_) => iface
  }

  /** The table after `--genmac` has done its work: only `eth1`, if present, changes. */
  function UpdatedInterfaces(interfaces: map<string, Interface>, genmac: bool): map<string, Interface>
  {
    if genmac && GeneratedMacInterface in interfaces then
      interfaces[GeneratedMacInterface := WithDerivedMac(interfaces[GeneratedMacInterface])]
    else interfaces
  }

  /** A step of the interface walk over a sub-interface adds nothing. */
  lemma SkipStep(interfaces: map<string, Interface>, names: seq<string>, i: nat, genmac: bool, derived: Result<string, Error>,
                 nicType: string, nicKey: int, prefix: seq<DeviceChange>)
    requires i < |names| && (forall k :: k in names ==> k in interfaces) && IsSubInterface(names[i])
    ensures Assemble(Ok(prefix), InterfaceNics(interfaces, names[i..], genmac, derived, nicType, nicKey))
            == Assemble(Ok(prefix), InterfaceNics(interfaces, names[i + 1..], genmac, derived, nicType, nicKey))
  {
    assert names[i..][0] == names[i] && names[i..][1..] == names[i + 1..];
  }

  /** A step of the interface walk whose adapter cannot be made ends the walk with that error. */
  lemma FailedStep(interfaces: map<string, Interface>, names: seq<string>, i: nat, genmac: bool, derived: Result<string, Error>,
                   nicType: string, nicKey: int, prefix: seq<DeviceChange>, e: Error)
    requires i < |names| && (forall k :: k in names ==> k in interfaces) && !IsSubInterface(names[i])
    requires InterfaceNic(names[i], interfaces[names[i]], genmac, derived, nicType, nicKey) == Err(e)
    ensures Assemble(Ok(prefix), InterfaceNics(interfaces, names[i..], genmac, derived, nicType, nicKey)) == Err(e)
  {
    assert names[i..][0] == names[i] && names[i..][1..] == names[i + 1..];
  }

  /** A step of the interface walk that makes an adapter puts it next on the list. */
  lemma NicStep(interfaces: map<string, Interface>, names: seq<string>, i: nat, genmac: bool, derived: Result<string, Error>,
                nicType: string, nicKey: int, prefix: seq<DeviceChange>, nic: DeviceChange)
    requires i < |names| && (forall k :: k in names ==> k in interfaces) && !IsSubInterface(names[i])
    requires InterfaceNic(names[i], interfaces[names[i]], genmac, derived, nicType, nicKey) == Ok(nic)
    ensures Assemble(Ok(prefix), InterfaceNics(interfaces, names[i..], genmac, derived, nicType, nicKey))
            == Assemble(Ok(prefix + [nic]), InterfaceNics(interfaces, names[i + 1..], genmac, derived, nicType, nicKey + 1))
  {
    var next := names[i + 1..];
    assert names[i..][0] == names[i] && names[i..][1..] == next;
    var rest := InterfaceNics(interfaces, next, genmac, derived, nicType, nicKey + 1);
    if rest.Ok? {
      assert InterfaceNics(interfaces, names[i..], genmac, derived, nicType, nicKey) == Ok([nic] + rest.value);
      assert prefix + ([nic] + rest.value) == (prefix + [nic]) + rest.value;
    }
  }

  /** A step of the interface walk keeps the table equal to the update once `eth1` has been
      visited and to the original table before: names are visited once each. */
  lemma TableStep(interfaces: map<string, Interface>, names: seq<string>, i: nat, genmac: bool,
                  table: map<string, Interface>, table': map<string, Interface>)
    requires i < |names| && (forall k :: k in names ==> k in interfaces)
    requires forall p, q :: 0 <= p < q < |names| ==> names[p] != names[q]
    requires table == if GeneratedMacInterface in names[..i] then UpdatedInterfaces(interfaces, genmac) else interfaces
    requires table' == if genmac && names[i] == GeneratedMacInterface then table[names[i] := WithDerivedMac(table[names[i]])]
                       else table
    ensures table' == if GeneratedMacInterface in names[..i + 1] then UpdatedInterfaces(interfaces, genmac) else interfaces
  {
    var k := names[i];
    assert names[..i + 1] == names[..i] + [k];
    if k == GeneratedMacInterface {
      assert k !in names[..i] by {
        forall p | 0 <= p < i ensures names[p] != k {
        }
      }
      assert k in names;
    }
  }

  /** `--genmac` touches no entry but `eth1`, and adds or removes none. */
  lemma UpdateTouchesOnlyEth1(interfaces: map<string, Interface>, genmac: bool)
    ensures UpdatedInterfaces(interfaces, genmac).Keys == interfaces.Keys
    ensures forall k :: k in interfaces && k != GeneratedMacInterface ==>
              UpdatedInterfaces(interfaces, genmac)[k] == interfaces[k]
    ensures !genmac ==> UpdatedInterfaces(interfaces, genmac) == interfaces
  {
  }

  /** `sorted(keys)`: repeatedly takes the least remaining key. */
  method SortedKeys(keys: set<string>) returns (ks: seq<string>)
    ensures SortedEnumeration(ks, keys)
  {
    ks := [];
    var left := keys;
    while left != {}
      invariant left <= keys
      invariant StrictlySorted(ks)
      invariant forall k :: k in ks <==> k in keys && k !in left
      invariant forall a, b :: a in ks && b in left ==> Below(a, b) && a != b
      decreases |left|
    {
      LeastExists(left);
      var m :| m in left && forall x :: x in left ==> Below(m, x);
      forall i | 0 <= i < |ks| ensures Below(ks[i], m) && ks[i] != m {
        assert ks[i] in ks;
      }
      ks := ks + [m];
      left := left - {m};
    }
  }

  /** The body of the interface walk for one interface that is not a sub-interface: with
      `--genmac`, `eth1`'s entry is overwritten in place with the derived MAC; then its adapter
      is built from the (possibly updated) entry. */
  method AddInterfaceNic(table: map<string, Interface>, k: string, genmac: bool,
                         ghost derived: Result<string, Error>, nicType: string, nicKey: int)
    returns (r: Result<DeviceChange, Error>, table': map<string, Interface>)
    requires k in table
    requires genmac && k == GeneratedMacInterface ==> derived == DerivedMac(table)
    ensures r == InterfaceNic(k, table[k], genmac, derived, nicType, nicKey)
    ensures table' == if genmac && k == GeneratedMacInterface then table[k := WithDerivedMac(table[k])] else table
  {
    table' := table;
    if genmac && k == GeneratedMacInterface {
      var mac := IpAddressToVMwareMac(table'[k].ipAddress);
      if mac.Err? {
        assert table' == table[k := WithDerivedMac(table[k])];
        return Err(mac.error), table';
      }
      table' := table'[k := table'[k].(macAddress := Some(mac.value))];
    }
    var netName := table'[k].virtBridge;
    var macAddress := table'[k].macAddress;
    r := CreateNicSpec(nicKey, netName, macAddress, nicType);
  }

  /** One pass of the interface walk: a sub-interface is skipped; any other interface has its
      adapter built (with `eth1`'s entry updated in place under `--genmac`), appended, and the
      NIC key advanced. `goal` is what the rest of the walk from position `i` produces. */
  method VisitInterface(interfaces: map<string, Interface>, names: seq<string>, i: nat, genmac: bool,
                        ghost derived: Result<string, Error>, nicType: string, configSpecs: seq<DeviceChange>, nicKey: int,
                        table: map<string, Interface>, ghost goal: Result<seq<DeviceChange>, Error>)
    returns (failed: Option<Error>, configSpecs': seq<DeviceChange>, nicKey': int, table': map<string, Interface>)
    requires i < |names| && (forall k :: k in names ==> k in interfaces)
    requires forall p, q :: 0 <= p < q < |names| ==> names[p] != names[q]
    requires derived == DerivedMac(interfaces)
    requires table == if GeneratedMacInterface in names[..i] then UpdatedInterfaces(interfaces, genmac) else interfaces
    requires goal == Assemble(Ok(configSpecs), InterfaceNics(interfaces, names[i..], genmac, derived, nicType, nicKey))
    ensures table' == if GeneratedMacInterface in names[..i + 1] then UpdatedInterfaces(interfaces, genmac) else interfaces
    ensures failed.Some? ==> goal == Err(failed.value)
    ensures failed.None? ==>
              goal == Assemble(Ok(configSpecs'), InterfaceNics(interfaces, names[i + 1..], genmac, derived, nicType, nicKey'))
  {
    var k := names[i];
    assert k in names;
    if IsSubInterface(k) {
      TableStep(interfaces, names, i, genmac, table, table);
      SkipStep(interfaces, names, i, genmac, derived, nicType, nicKey, configSpecs);
      return None, configSpecs, nicKey, table;
    }
    assert table[k] == interfaces[k];
    assert k == GeneratedMacInterface ==> table == interfaces;
    var nicSpec;
    nicSpec, table' := AddInterfaceNic(table, k, genmac, derived, nicType, nicKey);
    TableStep(interfaces, names, i, genmac, table, table');
    if nicSpec.Err? {
      FailedStep(interfaces, names, i, genmac, derived, nicType, nicKey, configSpecs, nicSpec.error);
      return Some(nicSpec.error), configSpecs, nicKey, table';
    }
    NicStep(interfaces, names, i, genmac, derived, nicType, nicKey, configSpecs, nicSpec.value);
    return None, configSpecs + [nicSpec.value], nicKey + 1, table';
  }

  /** Appends one adapter per interface in the order `names` gives, skipping sub-interfaces,
      the NIC key advancing after each; the table, with `eth1` possibly updated in place,
      is handed back. */
  method AddInterfaceNics(interfaces: map<string, Interface>, names: seq<string>, genmac: bool,
                          nicType: string, configSpecs0: seq<DeviceChange>)
    returns (r: Result<seq<DeviceChange>, Error>, table: map<string, Interface>)
    requires forall k :: k in names ==> k in interfaces
    requires GeneratedMacInterface in interfaces ==> GeneratedMacInterface in names
    requires forall p, q :: 0 <= p < q < |names| ==> names[p] != names[q]
    ensures r == Assemble(Ok(configSpecs0), InterfaceNics(interfaces, names, genmac, DerivedMac(interfaces), nicType, 0))
    ensures table == interfaces || table == UpdatedInterfaces(interfaces, genmac)
    ensures r.Ok? ==> table == UpdatedInterfaces(interfaces, genmac)
  {
    ghost var derived := DerivedMac(interfaces);
    ghost var goal := Assemble(Ok(configSpecs0), InterfaceNics(interfaces, names, genmac, derived, nicType, 0));
    table := interfaces;
    var configSpecs := configSpecs0;
    var nicKey := 0;
    assert names[0..] == names;
    for i := 0 to |names|
      invariant table == if GeneratedMacInterface in names[..i] then UpdatedInterfaces(interfaces, genmac) else interfaces
      invariant goal == Assemble(Ok(configSpecs), InterfaceNics(interfaces, names[i..], genmac, derived, nicType, nicKey))
    {
      var failed;
      failed, configSpecs, nicKey, table :=
        VisitInterface(interfaces, names, i, genmac, derived, nicType, configSpecs, nicKey, table, goal);
      if failed.Some? {
        return Err(failed.value), table;
      }
    }
    assert names[..|names|] == names;
    assert GeneratedMacInterface !in names ==> UpdatedInterfaces(interfaces, genmac) == interfaces;
    assert names[|names|..] == [] && configSpecs + [] == configSpecs;
    r := Ok(configSpecs);
  }

  /** The disks, then one adapter per interface in sorted order; the interface table is
      updated in place when `eth1`'s MAC is derived, and handed back. */
  method AssembleFromRecord(record: SystemRecord, genmac: bool, scsiType: string, nicType: string)
    returns (r: Result<seq<DeviceChange>, Error>, table: map<string, Interface>)
    ensures r == RecordDevices(record, genmac, scsiType, nicType)
    ensures table == record.interfaces || table == UpdatedInterfaces(record.interfaces, genmac)
    ensures r.Ok? ==> table == UpdatedInterfaces(record.interfaces, genmac)
  {
    var configSpecs: seq<DeviceChange> := [];
    var virtFileSize := PyStr(record.virtFileSize);
    if virtFileSize != "" && Truthy(record.virtPath) {
      var withDisks := AddControllerAndDisks(Split(virtFileSize, ','), record.virtPath.value, scsiType);
      if withDisks.Err? {
        return Err(withDisks.error), record.interfaces;
      }
      configSpecs := withDisks.value;
    }
    var names := SortedKeys(record.interfaces.Keys);
    SortedEnumerationUnique(names, SortedKeysOf(record.interfaces.Keys), record.interfaces.Keys);
    r, table := AddInterfaceNics(record.interfaces, names, genmac, nicType, configSpecs);
  }

  /** The provisioning-server path end to end: no record, or a record of another hypervisor
      type, stops the run first; then the device list is built; a record without a path
      cannot be turned into a VM file location. */
  method CreateVmFromRecord(name: string, guestos: string, server: Option<SystemRecord>, genmac: bool,
                            scsiType: string, nicType: string)
    returns (r: Result<VmSpec, Error>)
    ensures server.None? ==> r == Err(NoSystemRecord)
    ensures server.Some? && server.value.virtType != Some(SupportedHypervisor) ==>
              r == Err(UnsupportedVirtType(PyStr(server.value.virtType)))
    ensures server.Some? && server.value.virtType == Some(SupportedHypervisor) ==>
              var record := server.value;
              var devices := RecordDevices(record, genmac, scsiType, nicType);
              && (devices.Err? ==> r == Err(devices.error))
              && (devices.Ok? && record.virtPath.None? ==> r == Err(MissingVirtPath))
              && (devices.Ok? && record.virtPath.Some? ==>
                    r == Ok(CreateVmSpec(name, record.virtCpus, record.virtRam, guestos, record.comment,
                                         record.virtPath.value, devices.value)))
  {
    if server.None? {
      return Err(NoSystemRecord);
    }
    var record := server.value;
    if record.virtType != Some(SupportedHypervisor) {
      return Err(UnsupportedVirtType(PyStr(record.virtType)));
    }
    var devices, _ := AssembleFromRecord(record, genmac, scsiType, nicType);
    if devices.Err? {
      return Err(devices.error);
    }
    if record.virtPath.None? {
      return Err(MissingVirtPath);
    }
    r := Ok(CreateVmSpec(name, record.virtCpus, record.virtRam, guestos, record.comment,
                         record.virtPath.value, devices.value));
  }

  /** The selected names are exactly the listed names that are not sub-interfaces. */
  lemma {:induction false} SelectedMembers(names: seq<string>)
    ensures forall x :: x in Selected(names) <==> x in names && !IsSubInterface(x)
    decreases |names|
  {
    if |names| > 0 {
      SelectedMembers(names[1..]);
      assert names == [names[0]] + names[1..];
    }
  }

  /** Skipping names keeps the remaining ones in sorted order. */
  lemma {:induction false} SelectedSorted(names: seq<string>)
    requires StrictlySorted(names)
    ensures StrictlySorted(Selected(names))
    decreases |names|
  {
    if |names| > 0 {
      var rest := names[1..];
      assert StrictlySorted(rest) by {
        forall i, j | 0 <= i < j < |rest| ensures Below(rest[i], rest[j]) && rest[i] != rest[j] {
          assert rest[i] == names[i + 1] && rest[j] == names[j + 1];
        }
      }
      SelectedSorted(rest);
      if !IsSubInterface(names[0]) {
        SelectedMembers(rest);
        var sel := [names[0]] + Selected(rest);
        forall i, j | 0 <= i < j < |sel| ensures Below(sel[i], sel[j]) && sel[i] != sel[j] {
          if i == 0 {
            assert sel[j] in Selected(rest);
            var p :| 0 <= p < |rest| && rest[p] == sel[j];
            assert names[p + 1] == sel[j];
          } else {
            assert sel[i] == Selected(rest)[i - 1] && sel[j] == Selected(rest)[j - 1];
          }
        }
      }
    }
  }

  /** The walk makes adapter `j` from the `j`-th selected interface, with key `nicKey + j`. */
  lemma InterfaceNicsLayout(interfaces: map<string, Interface>, names: seq<string>,
                            genmac: bool, derived: Result<string, Error>, nicType: string, nicKey: int)
    requires forall k :: k in names ==> k in interfaces
    requires InterfaceNics(interfaces, names, genmac, derived, nicType, nicKey).Ok?
    ensures var nics := InterfaceNics(interfaces, names, genmac, derived, nicType, nicKey).value;
            var sel := Selected(names);
            && |nics| == |sel|
            && forall j :: 0 <= j < |sel| ==> NicAt(interfaces, sel[j], genmac, derived, nicType, nicKey + j, nics[j])
  {
    LayoutLength(interfaces, names, genmac, derived, nicType, nicKey);
    var sel := Selected(names);
    forall j | 0 <= j < |sel|
      ensures NicAt(interfaces, sel[j], genmac, derived, nicType, nicKey + j,
                    InterfaceNics(interfaces, names, genmac, derived, nicType, nicKey).value[j])
    {
      NicAtIndex(interfaces, names, genmac, derived, nicType, nicKey, j);
    }
  }

  /** Interface `name` is in the table and its adapter, keyed `nicKey`, is `nic`. */
  predicate NicAt(interfaces: map<string, Interface>, name: string, genmac: bool, derived: Result<string, Error>, nicType: string,
                  nicKey: int, nic: DeviceChange)
  {
    name in interfaces && InterfaceNic(name, interfaces[name], genmac, derived, nicType, nicKey) == Ok(nic)
  }

  /** One adapter per selected name. */
  lemma {:induction false} LayoutLength(interfaces: map<string, Interface>, names: seq<string>,
                                        genmac: bool, derived: Result<string, Error>, nicType: string, nicKey: int)
    requires forall k :: k in names ==> k in interfaces
    requires InterfaceNics(interfaces, names, genmac, derived, nicType, nicKey).Ok?
    ensures |InterfaceNics(interfaces, names, genmac, derived, nicType, nicKey).value| == |Selected(names)|
    decreases |names|
  {
    if |names| > 0 {
      assert forall x :: x in names[1..] ==> x in names;
      if IsSubInterface(names[0]) {
        LayoutLength(interfaces, names[1..], genmac, derived, nicType, nicKey);
      } else {
        LayoutLength(interfaces, names[1..], genmac, derived, nicType, nicKey + 1);
      }
    }
  }

  /** The `j`-th adapter is the one built for the `j`-th selected name, keyed `nicKey + j`. */
  lemma {:induction false} NicAtIndex(interfaces: map<string, Interface>, names: seq<string>,
                                      genmac: bool, derived: Result<string, Error>, nicType: string, nicKey: int, j: nat)
    requires forall k :: k in names ==> k in interfaces
    requires InterfaceNics(interfaces, names, genmac, derived, nicType, nicKey).Ok?
    requires j < |Selected(names)|
    ensures j < |InterfaceNics(interfaces, names, genmac, derived, nicType, nicKey).value|
    ensures NicAt(interfaces, Selected(names)[j], genmac, derived, nicType, nicKey + j,
                  InterfaceNics(interfaces, names, genmac, derived, nicType, nicKey).value[j])
    decreases |names|
  {
    LayoutLength(interfaces, names, genmac, derived, nicType, nicKey);
    var tail := names[1..];
    assert forall x :: x in tail ==> x in names;
    if IsSubInterface(names[0]) {
      NicAtIndex(interfaces, tail, genmac, derived, nicType, nicKey, j);
    } else if j > 0 {
      NicAtIndex(interfaces, tail, genmac, derived, nicType, nicKey + 1, j - 1);
      assert Selected(names)[j] == Selected(tail)[j - 1];
      assert InterfaceNics(interfaces, names, genmac, derived, nicType, nicKey).value[j]
             == InterfaceNics(interfaces, tail, genmac, derived, nicType, nicKey + 1).value[j - 1];
      assert nicKey + 1 + (j - 1) == nicKey + j;
    }
  }

  /** What a record's adapters look like: one per interface that is not a sub-interface, in
      sorted name order, keys 0, 1, 2, ...; each on its bridge with the requested adapter
      class; with `--genmac`, `eth1`'s adapter carries the MAC derived from its IP address,
      manually assigned; every other adapter is manual with its own MAC exactly when that
      MAC is present and non-empty, and generated otherwise. */
  lemma RecordNicLayout(record: SystemRecord, genmac: bool, nicType: string)
    requires RecordNics(record, genmac, nicType).Ok?
    ensures var nics := RecordNics(record, genmac, nicType).value;
            var sel := Selected(SortedKeysOf(record.interfaces.Keys));
            && StrictlySorted(sel)
            && (forall x :: x in sel <==> x in record.interfaces && !IsSubInterface(x))
            && |nics| == |sel|
            && forall j :: 0 <= j < |sel| ==>
                 var iface := record.interfaces[sel[j]];
                 var card := nics[j].device;
                 && nics[j].operation == Add && card.EthernetCard? && NicTag(card.nicKind) == nicType
                 && card.key == j && card.networkName == iface.virtBridge
                 && (genmac && sel[j] == GeneratedMacInterface ==>
                       IpAddressToVMwareMac(iface.ipAddress).Ok? && card.addressType == Manual
                       && card.macAddress == Some(IpAddressToVMwareMac(iface.ipAddress).value))
                 && (!(genmac && sel[j] == GeneratedMacInterface) ==>
                       (card.addressType == Manual <==> Truthy(iface.macAddress))
                       && card.macAddress == (if Truthy(iface.macAddress) then iface.macAddress else None))
  {
    var names := SortedKeysOf(record.interfaces.Keys);
    SelectedMembers(names);
    SelectedSorted(names);
    var derived := DerivedMac(record.interfaces);
    InterfaceNicsLayout(record.interfaces, names, genmac, derived, nicType, 0);
    if GeneratedMacInterface in record.interfaces {
      MacOutcome(record.interfaces[GeneratedMacInterface].ipAddress);
    }
  }

  /** `--genmac` changes nothing for a walk that does not pass `eth1`. */
  lemma {:induction false} GenmacNeedsEth1(interfaces: map<string, Interface>, names: seq<string>,
                                           derived: Result<string, Error>, nicType: string, nicKey: int)
    requires forall k :: k in names ==> k in interfaces
    requires GeneratedMacInterface !in names
    ensures InterfaceNics(interfaces, names, true, derived, nicType, nicKey)
            == InterfaceNics(interfaces, names, false, derived, nicType, nicKey)
    decreases |names|
  {
    if |names| > 0 {
      assert forall x :: x in names[1..] ==> x in names;
      GenmacNeedsEth1(interfaces, names[1..], derived, nicType, nicKey);
      GenmacNeedsEth1(interfaces, names[1..], derived, nicType, nicKey + 1);
    }
  }

  /** A record without an `eth1` interface gets the same adapters with or without `--genmac`. */
  lemma GenmacWithoutEth1(record: SystemRecord, nicType: string)
    requires GeneratedMacInterface !in record.interfaces
    ensures RecordNics(record, true, nicType) == RecordNics(record, false, nicType)
  {
    GenmacNeedsEth1(record.interfaces, SortedKeysOf(record.interfaces.Keys), DerivedMac(record.interfaces), nicType, 0);
  }

  /** A record with a path but no size field reaches `int("None")`, which fails (once the
      controller class is known). */
  lemma MissingSizeFails(record: SystemRecord, genmac: bool, scsiType: string, nicType: string)
    requires record.virtFileSize.None? && Truthy(record.virtPath)
    requires ScsiKindOf(scsiType).Some?
    ensures RecordDevices(record, genmac, scsiType, nicType) == Err(InvalidInteger("None"))
  {
    SplitWhole("None", ',');
    assert Strip("None") == "None";
    assert !IsDigit('N');
    assert ParseInt("None").None?;
    var tokens := ["None"];
    assert tokens[..0] == [];
    ParseDiskSizesFirstBad(tokens, 0);
  }

  /** No size text or no path: no controller and no disks, only adapters. */
  lemma NoDisksWithoutPathOrSize(record: SystemRecord, genmac: bool, scsiType: string, nicType: string)
    requires PyStr(record.virtFileSize) == "" || !Truthy(record.virtPath)
    ensures RecordDevices(record, genmac, scsiType, nicType) == RecordNics(record, genmac, nicType)
  {
    match RecordNics(record, genmac, nicType)
    case Ok(nics) => assert [] + nics == nics;
    case Err(_) =>
  }

  /** With both a size text and a path, the record's sizes become disks on the datastore its
      path names, laid out as on the command line, with the adapters after them. */
  lemma RecordDiskLayout(record: SystemRecord, genmac: bool, scsiType: string, nicType: string)
    requires RecordDevices(record, genmac, scsiType, nicType).Ok?
    requires PyStr(record.virtFileSize) != "" && Truthy(record.virtPath)
    ensures var devs := RecordDevices(record, genmac, scsiType, nicType).value;
            var tokens := Split(PyStr(record.virtFileSize), ',');
            var nics := RecordNics(record, genmac, nicType).value;
            && |devs| == 1 + |tokens| + |nics|
            && devs[..1 + |tokens|] == DiskPart(tokens, record.virtPath.value, scsiType).value
            && devs[1 + |tokens|..] == nics
  {
    var tokens := Split(PyStr(record.virtFileSize), ',');
    var nics := RecordNics(record, genmac, nicType).value;
    RecordNicLayout(record, genmac, nicType);
    assert forall j :: 0 <= j < |nics| ==> nics[j].device.EthernetCard?;
    DeviceOrder(tokens, record.virtPath.value, scsiType, RecordNics(record, genmac, nicType));
  }
}
