# VM hardware topology of `vmware_cli.py`, modelled in Dafny

`vmware_cli.py` is a command-line tool that drives a VMware ESX/vCenter endpoint. With `--create` it
builds a virtual machine configuration. The configuration holds a device-change list, which comes from
one of two sources:

- the command line: `--disk <GB>` repeated and `--nic <port group>[,<mac>]` repeated;
- a Cobbler system record, fetched with `--master`.

It then submits the configuration. This project models, as values and proofs, how that configuration
is built:

- **Devices** (`devices.dfy`): the four spec builders `createScsiSpec`, `createDiskSpec`,
  `createNicSpec` and `createVmSpec`. Each builds one record from its parameters. An unknown SCSI or
  NIC type tag leaves the device variable unbound in the source, so the run stops. Here that is an
  `Err`.
- **Mac** (`mac.dfy`): `ipAddressToVMwareMac`. It writes the prefix `00:50:56`, then the second, third
  and fourth dotted fields of the address, each rendered with `'%x'` and without padding.
- **Topology** (`topology.dfy`): the command-line assembly loops of `--create`.
  - The controller (key 0, bus 0, no sharing) comes first, and only when disks were asked for.
  - Disk `i` gets key `i`, controller key 0 and a capacity of `g * 1024 * 1024` KB.
  - Disk unit numbers skip the reserved unit 7.
  - NICs come after the disks, with keys `0..m-1`.
  - Each `--nic` token is split at its first comma.
  - The loops are methods proved equal to specification functions. The lemmas state the layout.
- **Cobbler** (`cobbler.dfy`): the record-driven assembly.
  - The size text is `str()` of the record's value, so a missing size reads as `"None"`.
  - Disks are built only when the size text and the storage path are both non-empty.
  - Interfaces are visited in sorted name order. Names containing `:` or `.` are skipped.
  - With `--genmac`, the interface `eth1` alone has its MAC replaced by the IP-derived one, and the
    record's interface table is updated in place.
  - The specification of the walk receives `eth1`'s derived MAC as a value worked out from `eth1`'s
    entry. The loop derives it when it reaches `eth1`, and is proved to agree with that value.
- **Lookup** (`lookup.dfy`): VM selection by name and by UUID, and the `--prune` step.
  - By name, no match ends in the `IndexError` that prune swallows.
  - Several matches end in `None`. Prune then deletes `None`, which raises an `AttributeError` that
    nothing catches.
- **Options** (`options.dfy`): the filter and action exclusivity checks.
- **AutoStart** (`autostart.dfy`): the host auto-start defaults record. Enabled and heartbeat are
  always set. The delays and the stop action are set only when auto start is enabled and the value is
  non-empty.

`text.dfy` models the Python built-ins these lines rely on:

- `str.split` and `split(',', 1)`;
- `int()` on text;
- `'%x'`;
- `sorted()` on strings, i.e. code-point lexicographic order.

The docstring of `ipAddressToVMwareMac` names the range `00:05:56`, but the code writes `00:50:56`.
The model follows the code.

## Model

| member | source | states |
|---|---|---|
| Devices.ScsiKindOf | vmware_cli.py:465-472 | the tag selects a controller class exactly when it is one of the four tags, and the class selected is the one with that tag |
| Devices.NicKindOf | vmware_cli.py:511-516 | the tag selects an adapter class exactly when it is one of the three tags, and the class selected is the one with that tag |
| Devices.DatastorePathRoundTrip | vmware_cli.py:493 | the bracketed datastore reference gives back the datastore name |
| Devices.CreateScsiSpec | vmware_cli.py:459-478 | an ADD of a controller whose class has the requested tag, with the given key and bus and no bus sharing; fails with the tag exactly when no class has it |
| Devices.CreateDiskSpec | vmware_cli.py:480-500 | an ADD that creates the file; the disk has the given key, controller key, unit number and capacity, and a thin-provisioned backing on the named datastore in the given mode |
| Devices.CreateNicSpec | vmware_cli.py:502-528 | an ADD of an adapter of the requested class on the named network; manual addressing with the MAC exactly when the MAC is non-empty, generated and no MAC otherwise; an unknown tag fails |
| Devices.CreateVmSpec | vmware_cli.py:530-552 | the given name, CPUs, memory, guest and notes, the boot-order option `allow:net,cd,hd`, the device list unchanged, and VM files on the named datastore |
| Mac.MacOutcome | vmware_cli.py:554-561 | succeeds exactly when the address has four dotted fields and the last three are integers; a wrong field count fails as malformed; the result starts with `00:50:56:` |
| Mac.MacFromOctetsFields | vmware_cli.py:561 | the MAC's colon fields are `00`, `50`, `56` and the three hex renderings |
| Mac.MacFields | vmware_cli.py:560-561 | a derived MAC has six fields, and its last three read back as hex to the integers of the address's last three fields |
| Mac.FirstOctetIgnored | vmware_cli.py:560-561 | changing the first field changes neither success nor the MAC |
| Mac.MacOfDottedQuad | vmware_cli.py:560-561 | for a dotted quad of integers the MAC is the prefix and the hex of the last three |
| Mac.ExampleAddress | vmware_cli.py:554-561 | `192.168.12.34` gives `00:50:56:a8:c:22` |
| Mac.ExampleMac | vmware_cli.py:561 | the fields 168, 12 and 34 give `00:50:56:a8:c:22` |
| Text.Split | vmware_cli.py:822 | `split(',')` gives at least one field, no field holds the separator, and joining the fields gives back the text |
| Text.SplitJoin | vmware_cli.py:822 | splitting a join of separator-free fields gives back the fields |
| Text.SplitOnce | vmware_cli.py:871 | `split(',', 1)` gives the whole text when it has no comma; otherwise two fields, the first without a comma, that rejoin with a comma into the text |
| Text.ParseFormatInt | vmware_cli.py:859 | `int()` of an integer's decimal text is that integer |
| Text.FormatHexRoundTrip | vmware_cli.py:561 | reading back a `'%x'` rendering as hex gives the integer |
| Text.BelowTransitive | vmware_cli.py:835 | the string order `sorted` uses is transitive |
| Text.SortedEnumerationUnique | vmware_cli.py:835 | there is only one strictly sorted listing of a set of keys |
| Topology.ParseDiskSizes | vmware_cli.py:858-859 | all sizes convert exactly when every token is an integer, and then each size is its token's value; otherwise the error names a token that is not an integer |
| Topology.ParseDiskSizesStep | vmware_cli.py:858-859 | converting one more size extends the list of sizes by it |
| Topology.ParseDiskSizesFirstBad | vmware_cli.py:858-859 | the error names the first token that is not an integer |
| Topology.ParseNicToken | vmware_cli.py:870-874 | a token without a comma is a network with no MAC; otherwise the network is the text before the first comma and a MAC is present |
| Topology.AddControllerAndDisks | vmware_cli.py:853-866 | the controller-and-disk loop builds the disk part: nothing without disks, else the controller followed by one disk per token, or the first error |
| Topology.AssembleFromFlags | vmware_cli.py:853-877 | the whole command-line loop builds the disk part followed by the NIC part, or the first error |
| Topology.CreateVmFromFlags | vmware_cli.py:853-879 | the VM spec from the assembled devices, failing exactly when assembly fails; every disk lives on the datastore of the VM path |
| Topology.DiskPartForm | vmware_cli.py:853-861 | with disks, the part is the controller of the requested class followed by the disk records |
| Topology.DiskLayout | vmware_cli.py:853-866 | controller key 0, bus 0, no sharing; disk i has key i, unit number skipping 7, controller key 0, capacity of its token times 1024*1024, persistent thin backing on the datastore |
| Topology.UnitNumbersSkipReserved | vmware_cli.py:862-866 | unit numbers start at 0, never equal 7, strictly increase, and cover every other unit exactly once |
| Topology.EightDisks | vmware_cli.py:862-866 | eight disks get unit numbers 0..6 and 8 |
| Topology.DeviceOrder | vmware_cli.py:853-877 | the list is the controller (only with disks), then the disks, then the NICs, each kind in its own contiguous region |
| Topology.NicLayout | vmware_cli.py:868-877 | NIC j has key j, the requested class, the j-th network, and manual addressing exactly when its MAC is non-empty |
| Topology.FlagsLayout | vmware_cli.py:853-877 | length is controller + disks + NICs; no disks and no NICs give an empty list; NIC j has key j and the network of the j-th token |
| Topology.FlagsDatastore | vmware_cli.py:853-879 | every disk backing is on the `--datastore` datastore |
| Topology.KeysSharedAcrossKinds | vmware_cli.py:771-776 | controller, first disk and first NIC all have key 0 |
| Topology.ExampleSizes | vmware_cli.py:858-859 | tokens `10`, `20` give sizes 10 and 20 |
| Topology.TwoDisks | vmware_cli.py:853-866 | two disks give the SAS controller, then disks of 10485760 and 20971520 KB on units 0 and 1 |
| Topology.TwoDisksOneNic | vmware_cli.py:853-877 | two disks and one NIC give controller, two disks, then a generated-address E1000 on `VM Network` with key 0 |
| Topology.NicOnNetwork | vmware_cli.py:868-877 | a comma-free token gives a generated-address adapter on that network |
| Cobbler.PyStr | vmware_cli.py:816 | `str()` of a present value is the value; of an absent one, the non-empty text `None` |
| Cobbler.InterfaceMac | vmware_cli.py:839-843 | eth1 under `--genmac` gets the `derived` value passed in, and fails with its error when it is one (`RecordNicLayout` and `AddInterfaceNic` tie that value to eth1's IP address); every other interface keeps its own MAC |
| Cobbler.SortedKeysOf | vmware_cli.py:835 | a strictly sorted listing of exactly the interface names |
| Cobbler.UpdateTouchesOnlyEth1 | vmware_cli.py:839-840 | the in-place update keeps the same names and changes no interface other than eth1, and changes nothing without `--genmac` |
| Cobbler.SortedKeys | vmware_cli.py:835 | the sorted listing of the interface names |
| Cobbler.AddInterfaceNic | vmware_cli.py:836-846 | one loop step: the interface's adapter record, and the table with eth1's MAC replaced only under `--genmac` |
| Cobbler.SkipStep | vmware_cli.py:836 | a sub-interface adds nothing to the rest of the walk |
| Cobbler.FailedStep | vmware_cli.py:839-844 | an interface whose adapter cannot be built ends the walk with that error |
| Cobbler.NicStep | vmware_cli.py:842-846 | an interface whose adapter is built puts it next on the list, and the rest of the walk continues with the next key |
| Cobbler.TableStep | vmware_cli.py:835-840 | after each step the table is the updated one once eth1 has been visited, and the original one before |
| Cobbler.VisitInterface | vmware_cli.py:836-846 | one pass of the loop: what the rest of the walk produces is unchanged, or is the error it stops with, and the table keeps the step invariant |
| Cobbler.AddInterfaceNics | vmware_cli.py:834-846 | the interface loop appends the adapters of the selected names in order with keys from 0, or the first error; on success the table is the updated one |
| Cobbler.AssembleFromRecord | vmware_cli.py:816-846 | the record's disk part followed by its interface adapters, and the updated interface table |
| Cobbler.CreateVmFromRecord | vmware_cli.py:800-848 | in order: no record fails, a virt type other than `vmware` fails, a device error fails, a missing storage path fails; otherwise the VM spec from the record's CPUs, memory, comment and path |
| Cobbler.SelectedMembers | vmware_cli.py:836 | the selected names are exactly the names containing neither `:` nor `.` |
| Cobbler.SelectedSorted | vmware_cli.py:835-836 | skipping names keeps the sorted order |
| Cobbler.LayoutLength | vmware_cli.py:835-846 | one adapter per selected interface |
| Cobbler.NicAtIndex | vmware_cli.py:835-846 | adapter j is the one built for the j-th selected interface, with key `nicKey + j` |
| Cobbler.InterfaceNicsLayout | vmware_cli.py:835-846 | one adapter per selected interface, and adapter j is the one built for the j-th selected interface with key `nicKey + j` |
| Cobbler.RecordNicLayout | vmware_cli.py:833-846 | adapters follow the sorted non-sub-interface names, with key j, the interface's bridge and the requested class; eth1 under `--genmac` is manual with the derived MAC; others are manual exactly when their MAC is non-empty |
| Cobbler.GenmacNeedsEth1 | vmware_cli.py:839-840 | without eth1 among the names, `--genmac` changes no adapter |
| Cobbler.GenmacWithoutEth1 | vmware_cli.py:839-840 | a record with no eth1 interface gives the same adapters with or without `--genmac` |
| Cobbler.MissingSizeFails | vmware_cli.py:816-824 | a record with a storage path but no size tries to convert `None` and fails |
| Cobbler.NoDisksWithoutPathOrSize | vmware_cli.py:818 | with an empty size text or no storage path the devices are the adapters alone |
| Cobbler.RecordDiskLayout | vmware_cli.py:818-846 | with a size and a path the devices are the disk part of the split size text, then the adapters |
| Lookup.Named | vmware_cli.py:203-206 | the match list holds exactly the inventory VMs carrying the name |
| Lookup.SelectByNameMeaning | vmware_cli.py:199-212 | not found exactly when no VM has the name; ambiguous exactly when two positions do; found names the only position that does |
| Lookup.GetVirtualMachineByName | vmware_cli.py:199-212 | the collecting loop answers the selection made from the match list |
| Lookup.GetVirtualMachineByUuid | vmware_cli.py:214-221 | `None` exactly when no VM has the UUID; otherwise the first VM that has it |
| Lookup.Prune | vmware_cli.py:781-786 | nothing to prune exactly when no VM has the name; deletion of `None` exactly when two do; otherwise deletion of the only VM with that name |
| Options.Message | vmware_cli.py:662-672 | each usage error has its own message: the filter message exactly for the filter error, the action message exactly for the action error |
| Options.Diagnose | vmware_cli.py:662-672 | the run ends with the filter message exactly when both name and uuid are non-empty, otherwise with the action message exactly when two or more actions are set, and with none otherwise |
| Options.ActionCount | vmware_cli.py:665-672 | at most four actions; zero exactly when none is set |
| Options.CheckSelection | vmware_cli.py:662-672 | the filter error exactly when both name and uuid are non-empty; otherwise the action error exactly when two or more actions are set; passes exactly when neither holds |
| AutoStart.OptionalDelay | vmware_cli.py:427-432 | a delay is converted only when enabled and non-empty, and then fails exactly when it is not an integer |
| AutoStart.HostAutoStartDefaults | vmware_cli.py:420-434 | enabled and heartbeat always as given; the start delay fails before the stop delay; delays and stop action set only when enabled and non-empty |
| AutoStart.DisabledSetsOnlySwitches | vmware_cli.py:424-434 | with auto start disabled nothing else is set and nothing fails |
| AutoStart.DelaysRoundTrip | vmware_cli.py:427-433 | delays written as decimal text come back as those numbers |

## Left out

- Connecting to and logging out of the endpoint, listing and printing inventory, licences, power
  operations, VM deletion internals (`deleteVm`), task submission and waiting: these are remote calls.
  `Lookup.Prune` names the VM it would delete, or the failure, and stops there.
- The inventory is a parameter: `Lookup` takes the VM list the endpoint would return.
- The Cobbler XML-RPC fetch is out of scope, and a connection failure exits the run. The record is a
  parameter, and an empty record (`not server`) is `None`.
- Cobbler records missing the `virt_bridge`, `mac_address` or `ip_address` keys raise `KeyError` in the
  source. They are not modelled: interface fields are always present. A record without an
  `interfaces` entry is modelled as an empty table.
- `virt_cpus` and `virt_ram` are integers here, and `comment` is text. The source passes whatever the
  record holds to the Java setters, including `None` for a record without a comment.
- Java integer widths: keys, unit numbers, capacities and delays are unbounded integers. No overflow of
  `int(disk) * 1024 * 1024` or of a delay handed to a Java `Integer` is modelled.
- `int()` is modelled as optional surrounding whitespace, an optional sign and decimal digits.
  Python 2's other accepted forms are not modelled, such as blanks between the sign and the digits:
  `int("- 5")` is -5, while the model rejects it.
- The option parser itself, the server, username and password checks, `getpass` and `sys.exit`. The
  parser's `choices` restrict `--scsi-type` and `--nic-type` before the builders run; the model
  keeps the builders' own handling of an unknown tag.
- `Lookup.Prune` takes the name as text; a missing `--name` (`None`) is not modelled. It matches no
  VM in the source and so ends as nothing to prune.
- `Cobbler.InterfaceMac`: its contract is about the `derived` value it is given, not about the interface's IP address. The walk is specified with eth1's derivation as a parameter, and the link to eth1's IP address is proved in `Cobbler.RecordNicLayout` and required by `Cobbler.AddInterfaceNic`.
- `Mac.FirstOctetIgnored`: it states that the first field is never read only for addresses written as
  `<field>.<rest>`, and not as a statement about every tuple unpacking.
