/** The hardware spec factory: one device-change record per call, built from
    its parameters alone (`createScsiSpec`, `createDiskSpec`, `createNicSpec`,
    `createVmSpec`). */
module Devices {
  import opened Wrappers
  import opened Errors
  import opened Text

  /** The four SCSI controller classes `--scsi-type` chooses between. */
  datatype ScsiKind = LsiLogicSas | LsiLogicParallel | BusLogic | ParaVirtual

  /** The three virtual network adapter classes `--nic-type` chooses between. */
  datatype NicKind = E1000 | Vmxnet2 | Vmxnet3

  /** The tag that selects a controller class. */
  function ScsiTag(kind: ScsiKind): string
  {
    match kind
    case LsiLogicSas => "sas"
    case LsiLogicParallel => "parallel"
    case BusLogic => "buslogic"
    case ParaVirtual => "paravirt"
  }

  /** The tag that selects an adapter class. */
  function NicTag(kind: NicKind): string
  {
    match kind
    case E1000 => "e1000"
    case Vmxnet2 => "vmxnet2"
    case Vmxnet3 => "vmxnet3"
  }

  /** The controller class a tag selects, if any: exactly the inverse of ScsiTag. */
  function ScsiKindOf(tag: string): (kind: Option<ScsiKind>)
    ensures kind.Some? ==> ScsiTag(kind.value) == tag
    ensures kind.None? ==> forall k: ScsiKind :: ScsiTag(k) != tag
  {
    if tag == "sas" then Some(LsiLogicSas)
    else if tag == "parallel" then Some(LsiLogicParallel)
    else if tag == "buslogic" then Some(BusLogic)
    else if tag == "paravirt" then Some(ParaVirtual)
    else None
  }

  /** The adapter class a tag selects, if any: exactly the inverse of NicTag. */
  function NicKindOf(tag: string): (kind: Option<NicKind>)
    ensures kind.Some? ==> NicTag(kind.value) == tag
    ensures kind.None? ==> forall k: NicKind :: NicTag(k) != tag
  {
    if tag == "e1000" then Some(E1000)
    else if tag == "vmxnet2" then Some(Vmxnet2)
    else if tag == "vmxnet3" then Some(Vmxnet3)
    else None
  }

  datatype Operation = Add
  datatype FileOperation = Create
  datatype Sharing = NoSharing
  datatype AddressType = Generated | Manual

  /** A flat (version 2) disk backing: the file, its mode and thin provisioning. */
  datatype DiskBacking = DiskBacking(fileName: string, diskMode: string, thinProvisioned: bool)

  datatype VirtualDevice =
    | ScsiController(scsiKind: ScsiKind, key: int, busNumber: int, sharedBus: Sharing)
    | Disk(key: int, capacityInKB: int, unitNumber: int, controllerKey: int, backing: DiskBacking)
    | EthernetCard(nicKind: NicKind, key: int, networkName: string,
                   addressType: AddressType, macAddress: Option<string>)

  /** One entry of a configuration's device-change list. */
  datatype DeviceChange = DeviceChange(operation: Operation, fileOperation: Option<FileOperation>,
                                       device: VirtualDevice)

  /** A datastore reference as the endpoint expects it: the name in square brackets. */
  function DatastorePath(datastore: string): string
  {
    "[" + datastore + "]"
  }

  /** The datastore a bracketed reference names, if it is one. */
  function DatastoreOfPath(path: string): Option<string>
  {
    if |path| >= 2 && path[0] == '[' && path[|path| - 1] == ']' then Some(path[1..|path| - 1])
    else None
  }

  /** Wrapping a datastore name loses nothing: the name can be read back. */
  lemma DatastorePathRoundTrip(datastore: string)
    ensures DatastoreOfPath(DatastorePath(datastore)) == Some(datastore)
  {
    var p := DatastorePath(datastore);
    assert p[1..|p| - 1] == datastore;
  }

  /** The controller record once its class is known. */
  function ScsiChange(key: int, busNumber: int, kind: ScsiKind): DeviceChange
  {
    DeviceChange(Add, None, ScsiController(kind, key, busNumber, NoSharing))
  }

  /** `createScsiSpec`: an ADD of a controller of the class the tag selects, with the
      given key and bus and no bus sharing; an unknown tag stops the run. */
  function CreateScsiSpec(scsiKey: int, busNumber: int, scsiType: string): (r: Result<DeviceChange, Error>)
    ensures r.Ok? ==> r.value.operation == Add && r.value.fileOperation == None
    ensures r.Ok? ==> r.value.device.ScsiController? && ScsiTag(r.value.device.scsiKind) == scsiType
    ensures r.Ok? ==> r.value.device.key == scsiKey && r.value.device.busNumber == busNumber
    ensures r.Ok? ==> r.value.device.sharedBus == NoSharing
    ensures r.Err? <==> forall k: ScsiKind :: ScsiTag(k) != scsiType
    ensures r.Err? ==> r.error == UnsupportedScsiType(scsiType)
  {
    match ScsiKindOf(scsiType)
    case None => Err(UnsupportedScsiType(scsiType))
    case Some(kind) => Ok(ScsiChange(scsiKey, busNumber, kind))
  }

  /** `createDiskSpec`: an ADD that also creates the backing file. */
  function CreateDiskSpec(scsiKey: int, diskKey: int, unitNumber: int, diskSize: int,
                          diskMode: string, datastore: string): (r: DeviceChange)
    ensures r.operation == Add && r.fileOperation == Some(Create) && r.device.Disk?
    ensures r.device.key == diskKey && r.device.controllerKey == scsiKey
    ensures r.device.unitNumber == unitNumber && r.device.capacityInKB == diskSize
    ensures DatastoreOfPath(r.device.backing.fileName) == Some(datastore)
    ensures r.device.backing.diskMode == diskMode && r.device.backing.thinProvisioned
  {
    DatastorePathRoundTrip(datastore);
    DeviceChange(Add, Some(Create),
                 Disk(diskKey, diskSize, unitNumber, scsiKey, DiskBacking(DatastorePath(datastore), diskMode, true)))
  }

  /** The adapter record once its class is known: a MAC is used, and the address
      is manual, only when one is given and not empty. */
  function NicChange(nicKey: int, netName: string, macAddress: Option<string>, kind: NicKind): DeviceChange
  {
    var card :=
      if Truthy(macAddress) then EthernetCard(kind, nicKey, netName, Manual, macAddress)
      else EthernetCard(kind, nicKey, netName, Generated, None);
    DeviceChange(Add, None, card)
  }

  /** `createNicSpec`: an ADD of an adapter of the class the tag selects, on the named
      network; manual addressing with the MAC exactly when a non-empty MAC is given,
      generated addressing and no MAC otherwise; an unknown tag stops the run. */
  function CreateNicSpec(nicKey: int, netName: string, macAddress: Option<string>, nicType: string)
    : (r: Result<DeviceChange, Error>)
    ensures r.Ok? ==> r.value.operation == Add && r.value.fileOperation == None
    ensures r.Ok? ==> r.value.device.EthernetCard? && NicTag(r.value.device.nicKind) == nicType
    ensures r.Ok? ==> r.value.device.key == nicKey && r.value.device.networkName == netName
    ensures r.Ok? ==> (r.value.device.addressType == Manual <==> Truthy(macAddress))
    ensures r.Ok? ==> r.value.device.macAddress == (if Truthy(macAddress) then macAddress else None)
    ensures r.Err? <==> forall k: NicKind :: NicTag(k) != nicType
    ensures r.Err? ==> r.error == UnsupportedNicType(nicType)
  {
    match NicKindOf(nicType)
    case None => Err(UnsupportedNicType(nicType))
    case Some(kind) => Ok(NicChange(nicKey, netName, macAddress, kind))
  }

  /** An entry of the VM's extra configuration. */
  datatype OptionValue = OptionValue(key: string, value: string)

  /** The BIOS boot-order option every created VM carries. */
  const BootOrderKey := "bios.bootDeviceClasses"
  const BootOrderValue := "allow:net,cd,hd"

  /** The machine configuration submitted to the endpoint. */
  datatype VmSpec = VmSpec(name: string, numCPUs: int, memoryMB: int, guestId: string,
                           annotation: string, extraConfig: seq<OptionValue>,
                           deviceChange: seq<DeviceChange>, vmPathName: string)

  /** `createVmSpec`: the given settings and devices, the fixed boot order and the
      VM's files placed on the named datastore. */
  function CreateVmSpec(name: string, cpucount: int, memorysize: int, guestos: string,
                        annotation: string, datastore: string, configSpecs: seq<DeviceChange>): (r: VmSpec)
    ensures r.name == name && r.numCPUs == cpucount && r.memoryMB == memorysize
    ensures r.guestId == guestos && r.annotation == annotation
    ensures r.extraConfig == [OptionValue("bios.bootDeviceClasses", "allow:net,cd,hd")]
    ensures r.deviceChange == configSpecs
    ensures DatastoreOfPath(r.vmPathName) == Some(datastore)
  {
    DatastorePathRoundTrip(datastore);
    VmSpec(name, cpucount, memorysize, guestos, annotation,
           [OptionValue(BootOrderKey, BootOrderValue)], configSpecs, DatastorePath(datastore))
  }
}
