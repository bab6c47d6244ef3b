/** The topology assembler of the `--create` branch: the SCSI controller, one disk per
    requested size and one adapter per requested NIC, appended to a growing device-change
    list while key and unit-number counters advance. */
module Topology {
  import opened Wrappers
  import opened Errors
  import opened Text
  import opened Devices

  /** The single controller's key and bus. */
  const ScsiBusKey := 0
  const ScsiBusNumber := 0
  /** Changes are written to the virtual disk immediately and permanently. */
  const DiskMode := "persistent"
  /** The SCSI unit number the controller itself occupies; disks never get it. */
  const ReservedUnitNumber := 7

  /** The unit number the disk at position `i` (from 0) receives: the `i`-th value
      of 0, 1, 2, ... once the reserved number is taken out. */
  function UnitNumberOf(i: nat): nat
  {
    if i < ReservedUnitNumber then i else i + 1
  }

  /** `int(disk)` over the requested sizes, in order: every size when all parse, otherwise
      the first one that does not. */
  function ParseDiskSizes(tokens: seq<string>): (r: Result<seq<int>, Error>)
    ensures r.Ok? <==> forall i :: 0 <= i < |tokens| ==> ParseInt(tokens[i]).Some?
    ensures r.Ok? ==> |r.value| == |tokens|
    ensures r.Ok? ==> forall i :: 0 <= i < |tokens| ==> ParseInt(tokens[i]) == Some(r.value[i])
    ensures r.Err? ==> exists i :: 0 <= i < |tokens| && r.error == InvalidInteger(tokens[i])
                                   && ParseInt(tokens[i]).None?
                                   && forall j :: 0 <= j < i ==> ParseInt(tokens[j]).Some?
  {
    if |tokens| == 0 then Ok([])
    else
      var init := tokens[..|tokens| - 1];
      var sizes :- ParseDiskSizes(init);
      assert forall j :: 0 <= j < |init| ==> init[j] == tokens[j];
      match ParseInt(tokens[|tokens| - 1])
      case None => Err(InvalidInteger(tokens[|tokens| - 1]))
      case Some(g) => Ok(sizes + [g])
  }

  /** The disk records for parsed sizes (in GB): keys count up from 0, unit numbers skip the
      reserved one, every disk hangs off the controller and lives on the datastore. */
  function DiskDevices(sizes: seq<int>, datastore: string): seq<DeviceChange>
  {
    seq(|sizes|, i requires 0 <= i < |sizes| =>
      CreateDiskSpec(ScsiBusKey, i, UnitNumberOf(i), sizes[i] * 1024 * 1024, DiskMode, datastore))
  }

  /** What the controller-and-disks step produces: nothing for no disks, otherwise the
      controller followed by the disks; an unknown controller tag is noticed before any size. */
  function DiskPart(diskTokens: seq<string>, datastore: string, scsiType: string): Result<seq<DeviceChange>, Error>
  {
    if |diskTokens| == 0 then Ok([])
    else
      var controller :- CreateScsiSpec(ScsiBusKey, ScsiBusNumber, scsiType);
      var sizes :- ParseDiskSizes(diskTokens);
      Ok([controller] + DiskDevices(sizes, datastore))
  }

  /** One adapter request: the network (port group) and the MAC, if any. */
  datatype NicRequest = NicRequest(network: string, mac: Option<string>)

  /** A `--nic` token split at its first comma: the network before it, the rest (further
      commas included) as the MAC; without a comma the whole token is the network and
      there is no MAC. */
  function ParseNicToken(token: string): (request: NicRequest)
    ensures ',' !in token ==> request == NicRequest(token, None)
    ensures ',' in token ==> request.mac.Some? && ',' !in request.network
                             && request.network + "," + request.mac.value == token
  {
    var parts := SplitOnce(token, ',');
    if |parts| == 2 then NicRequest(parts[0], Some(parts[1])) else NicRequest(token, None)
  }

  function ParseNicTokens(tokens: seq<string>): seq<NicRequest>
  {
    seq(|tokens|, j requires 0 <= j < |tokens| => ParseNicToken(tokens[j]))
  }

  /** The adapters for the requests, keys counting up from 0; an unknown adapter tag
      stops the run as soon as there is an adapter to build. */
  function NicPart(requests: seq<NicRequest>, nicType: string): Result<seq<DeviceChange>, Error>
  {
    if |requests| == 0 then Ok([])
    else
      match NicKindOf(nicType)
      case None => Err(UnsupportedNicType(nicType))
      case Some(kind) =>
        Ok(seq(|requests|, j requires 0 <= j < |requests| =>
          NicChange(j, requests[j].network, requests[j].mac, kind)))
  }

  /** The controller and disks, then the adapters; the first failure wins. */
  function Assemble(diskPart: Result<seq<DeviceChange>, Error>, nicPart: Result<seq<DeviceChange>, Error>)
    : Result<seq<DeviceChange>, Error>
  {
    var disks :- diskPart;
    var nics :- nicPart;
    Ok(disks + nics)
  }

  /** The device list the command-line path builds from `--disk` and `--nic`. */
  function FlagsDevices(diskTokens: seq<string>, nicTokens: seq<string>, scsiType: string,
                        nicType: string, datastore: string): Result<seq<DeviceChange>, Error>
  {
    Assemble(DiskPart(diskTokens, datastore, scsiType), NicPart(ParseNicTokens(nicTokens), nicType))
  }
  /** Parsing one more size extends the parsed list by it. */
  lemma ParseDiskSizesStep(tokens: seq<string>, i: nat, sizes: seq<int>, g: int)
    requires i < |tokens| && ParseDiskSizes(tokens[..i]) == Ok(sizes) && ParseInt(tokens[i]) == Some(g)
    ensures ParseDiskSizes(tokens[..i + 1]) == Ok(sizes + [g])
  {
    assert tokens[..i + 1][..i] == tokens[..i];
  }

  /** The first size that does not parse is the one reported, whatever follows it. */
  lemma ParseDiskSizesFirstBad(tokens: seq<string>, i: nat)
    requires i < |tokens| && ParseDiskSizes(tokens[..i]).Ok? && ParseInt(tokens[i]).None?
    ensures ParseDiskSizes(tokens) == Err(InvalidInteger(tokens[i]))
  {
    var prefix := tokens[..i];
    forall j | 0 <= j < i ensures ParseInt(tokens[j]).Some? {
      assert prefix[j] == tokens[j];
    }
    var r := ParseDiskSizes(tokens);
    assert r.Err?;
    var k :| 0 <= k < |tokens| && r.error == InvalidInteger(tokens[k]) && ParseInt(tokens[k]).None?
             && forall j :: 0 <= j < k ==> ParseInt(tokens[j]).Some?;
    assert k == i;
  }

  /** One more size adds one disk at the end. */
  lemma DiskDevicesStep(sizes: seq<int>, g: int, datastore: string)
    ensures DiskDevices(sizes + [g], datastore)
            == DiskDevices(sizes, datastore)
               + [CreateDiskSpec(ScsiBusKey, |sizes|, UnitNumberOf(|sizes|), g * 1024 * 1024, DiskMode, datastore)]
  {
  }

  /** One more request adds one adapter at the end. */
  lemma NicPartStep(requests: seq<NicRequest>, i: nat, nicType: string, nics: seq<DeviceChange>, nic: DeviceChange)
    requires i < |requests| && NicPart(requests[..i], nicType) == Ok(nics)
    requires CreateNicSpec(i, requests[i].network, requests[i].mac, nicType) == Ok(nic)
    ensures NicPart(requests[..i + 1], nicType) == Ok(nics + [nic])
  {
    var kind := NicKindOf(nicType).value;
    var longer := requests[..i + 1];
    var expected := seq(i + 1, j requires 0 <= j < i + 1 => NicChange(j, longer[j].network, longer[j].mac, kind));
    assert NicPart(longer, nicType) == Ok(expected);
    assert nic == expected[i];
    assert nics == expected[..i] by {
      if i > 0 {
        var shorter := requests[..i];
        assert forall j :: 0 <= j < i ==> shorter[j] == longer[j];
      }
    }
    assert expected == expected[..i] + [expected[i]];
  }

  /** Appends the controller and then one disk per size, advancing the disk key and the
      unit number (stepping over the reserved one) after each disk. */
  method AddControllerAndDisks(diskTokens: seq<string>, datastore: string, scsiType: string)
    returns (r: Result<seq<DeviceChange>, Error>)
    ensures r == DiskPart(diskTokens, datastore, scsiType)
  {
    var configSpecs: seq<DeviceChange> := [];
    if |diskTokens| > 0 {
      var scsiSpec := CreateScsiSpec(ScsiBusKey, ScsiBusNumber, scsiType);
      if scsiSpec.Err? {
        return Err(scsiSpec.error);
      }
      configSpecs := configSpecs + [scsiSpec.value];
      var diskKey := 0;
      var diskUnitNum := 0;
      ghost var sizes: seq<int> := [];
      for i := 0 to |diskTokens|
        invariant diskKey == i && diskUnitNum == UnitNumberOf(i)
        invariant ParseDiskSizes(diskTokens[..i]) == Ok(sizes)
        invariant configSpecs == [scsiSpec.value] + DiskDevices(sizes, datastore)
      {
        var gb := ParseInt(diskTokens[i]);
        if gb.None? {
          ParseDiskSizesFirstBad(diskTokens, i);
          return Err(InvalidInteger(diskTokens[i]));
        }
        var size := gb.value * 1024 * 1024;
        var diskSpec := CreateDiskSpec(ScsiBusKey, diskKey, diskUnitNum, size, DiskMode, datastore);
        configSpecs := configSpecs + [diskSpec];
        ParseDiskSizesStep(diskTokens, i, sizes, gb.value);
        DiskDevicesStep(sizes, gb.value, datastore);
        sizes := sizes + [gb.value];
        diskKey := diskKey + 1;
        diskUnitNum := diskUnitNum + 1;
        if diskUnitNum == ReservedUnitNumber {
          diskUnitNum := diskUnitNum + 1;
        }
      }
      assert diskTokens[..|diskTokens|] == diskTokens;
    }
    r := Ok(configSpecs);
  }

  /** The command-line path: controller and disks, then one adapter per `--nic` token,
      the NIC key advancing after each. */
  method AssembleFromFlags(diskTokens: seq<string>, nicTokens: seq<string>, scsiType: string,
                           nicType: string, datastore: string)
    returns (r: Result<seq<DeviceChange>, Error>)
    ensures r == FlagsDevices(diskTokens, nicTokens, scsiType, nicType, datastore)
  {
    var withDisks := AddControllerAndDisks(diskTokens, datastore, scsiType);
    if withDisks.Err? {
      return Err(withDisks.error);
    }
    var configSpecs := withDisks.value;
    var nicKey := 0;
    ghost var requests := ParseNicTokens(nicTokens);
    ghost var nics: seq<DeviceChange> := [];
    for i := 0 to |nicTokens|
      invariant nicKey == i
      invariant NicPart(requests[..i], nicType) == Ok(nics)
      invariant configSpecs == withDisks.value + nics
    {
      var request := ParseNicToken(nicTokens[i]);
      var nicSpec := CreateNicSpec(nicKey, request.network, request.mac, nicType);
      if nicSpec.Err? {
        return Err(nicSpec.error);
      }
      configSpecs := configSpecs + [nicSpec.value];
      NicPartStep(requests, i, nicType, nics, nicSpec.value);
      nics := nics + [nicSpec.value];
      nicKey := nicKey + 1;
    }
    assert requests[..|nicTokens|] == requests;
    r := Ok(configSpecs);
  }

  /** The command-line path end to end: the device list, wrapped with the machine settings;
      disks and the VM's own files name the same datastore. */
  method CreateVmFromFlags(name: string, cpucount: int, memorysize: int, guestos: string, annotation: string,
                           datastore: string, diskTokens: seq<string>, nicTokens: seq<string>,
                           scsiType: string, nicType: string)
    returns (r: Result<VmSpec, Error>)
    ensures r.Ok? <==> FlagsDevices(diskTokens, nicTokens, scsiType, nicType, datastore).Ok?
    ensures r.Err? ==> r.error == FlagsDevices(diskTokens, nicTokens, scsiType, nicType, datastore).error
    ensures r.Ok? ==> r.value == CreateVmSpec(name, cpucount, memorysize, guestos, annotation, datastore,
                                              FlagsDevices(diskTokens, nicTokens, scsiType, nicType, datastore).value)
    ensures r.Ok? ==> forall d :: d in r.value.deviceChange && d.device.Disk? ==>
                        DatastoreOfPath(d.device.backing.fileName) == DatastoreOfPath(r.value.vmPathName)
  {
    var devices := AssembleFromFlags(diskTokens, nicTokens, scsiType, nicType, datastore);
    if devices.Err? {
      return Err(devices.error);
    }
    FlagsDatastore(diskTokens, nicTokens, scsiType, nicType, datastore);
    r := Ok(CreateVmSpec(name, cpucount, memorysize, guestos, annotation, datastore, devices.value));
  }

  /** The number of controllers a list with `diskCount` disks starts with. */
  function ControllerCount(diskCount: nat): nat
  {
    if diskCount > 0 then 1 else 0
  }

  /** With disks requested, the list is the controller of the requested class followed by
      one disk per parsed size. */
  lemma DiskPartForm(diskTokens: seq<string>, datastore: string, scsiType: string)
    requires DiskPart(diskTokens, datastore, scsiType).Ok? && |diskTokens| > 0
    ensures ScsiKindOf(scsiType).Some? && ParseDiskSizes(diskTokens).Ok?
    ensures DiskPart(diskTokens, datastore, scsiType).value
            == [ScsiChange(ScsiBusKey, ScsiBusNumber, ScsiKindOf(scsiType).value)]
               + DiskDevices(ParseDiskSizes(diskTokens).value, datastore)
  {
  }

  /** Shape of the controller-and-disks step when disks are requested: the controller (key 0,
      bus 0, no sharing, the requested class) first; then disk `i` with key `i`, unit number
      UnitNumberOf(i), the controller's key, `g * 1024 * 1024` KB for a request of `g` GB,
      thin, persistent and on the datastore. */
  lemma DiskLayout(diskTokens: seq<string>, datastore: string, scsiType: string)
    requires DiskPart(diskTokens, datastore, scsiType).Ok? && |diskTokens| > 0
    ensures var devs := DiskPart(diskTokens, datastore, scsiType).value;
            && |devs| == 1 + |diskTokens|
            && devs[0].operation == Add && devs[0].fileOperation == None
            && devs[0].device == ScsiController(devs[0].device.scsiKind, ScsiBusKey, ScsiBusNumber, NoSharing)
            && ScsiTag(devs[0].device.scsiKind) == scsiType
    ensures var devs := DiskPart(diskTokens, datastore, scsiType).value;
            var disks := devs[1..];
            forall i :: 0 <= i < |disks| ==>
              && disks[i].operation == Add && disks[i].fileOperation == Some(Create) && disks[i].device.Disk?
              && disks[i].device.key == i && disks[i].device.unitNumber == UnitNumberOf(i)
              && disks[i].device.controllerKey == devs[0].device.key
              && disks[i].device.capacityInKB == ParseInt(diskTokens[i]).value * 1024 * 1024
              && DatastoreOfPath(disks[i].device.backing.fileName) == Some(datastore)
              && disks[i].device.backing.diskMode == "persistent" && disks[i].device.backing.thinProvisioned
  {
    DiskPartForm(diskTokens, datastore, scsiType);
    var devs := DiskPart(diskTokens, datastore, scsiType).value;
    var sizes := ParseDiskSizes(diskTokens).value;
    assert devs[1..] == DiskDevices(sizes, datastore);
  }

  /** Position back from a unit number to the disk that holds it. */
  function DiskIndexOf(unitNumber: nat): nat
  {
    if unitNumber < ReservedUnitNumber then unitNumber else unitNumber - 1
  }

  /** Unit numbers start at 0, strictly increase with the disk's position and never take the
      reserved value; every other value is the unit number of exactly one position, so
      the first `n` disks take the `n` smallest values left. */
  lemma UnitNumbersSkipReserved()
    ensures UnitNumberOf(0) == 0
    ensures forall i: nat :: UnitNumberOf(i) != ReservedUnitNumber
    ensures forall i: nat, j: nat :: i < j ==> UnitNumberOf(i) < UnitNumberOf(j)
    ensures forall u: nat :: u != ReservedUnitNumber ==> UnitNumberOf(DiskIndexOf(u)) == u
    ensures forall i: nat :: DiskIndexOf(UnitNumberOf(i)) == i
  {
  }

  /** Eight disks get unit numbers 0, 1, 2, 3, 4, 5, 6 and 8. */
  lemma EightDisks(diskTokens: seq<string>, datastore: string, scsiType: string)
    requires |diskTokens| == 8 && DiskPart(diskTokens, datastore, scsiType).Ok?
    ensures var disks := DiskPart(diskTokens, datastore, scsiType).value[1..];
            [disks[0].device.unitNumber, disks[1].device.unitNumber, disks[2].device.unitNumber,
             disks[3].device.unitNumber, disks[4].device.unitNumber, disks[5].device.unitNumber,
             disks[6].device.unitNumber, disks[7].device.unitNumber] == [0, 1, 2, 3, 4, 5, 6, 8]
  {
    DiskLayout(diskTokens, datastore, scsiType);
  }

  /** Shape of a whole device list, on either input path: the controller-and-disks block,
      then the adapters, nothing else; no disks means no controller; the controller is at
      the front exactly when there are disks, disks right after it, adapters last. */
  lemma DeviceOrder(diskTokens: seq<string>, datastore: string, scsiType: string,
                    nicPart: Result<seq<DeviceChange>, Error>)
    requires Assemble(DiskPart(diskTokens, datastore, scsiType), nicPart).Ok?
    requires nicPart.Ok? ==> forall j :: 0 <= j < |nicPart.value| ==> nicPart.value[j].device.EthernetCard?
    ensures nicPart.Ok? && DiskPart(diskTokens, datastore, scsiType).Ok?
    ensures var devs := Assemble(DiskPart(diskTokens, datastore, scsiType), nicPart).value;
            var c, n := ControllerCount(|diskTokens|), |diskTokens|;
            && |devs| == c + n + |nicPart.value|
            && devs[..c + n] == DiskPart(diskTokens, datastore, scsiType).value
            && devs[c + n..] == nicPart.value
            && (forall i :: 0 <= i < |devs| ==> (devs[i].device.ScsiController? <==> i < c))
            && (forall i :: 0 <= i < |devs| ==> (devs[i].device.Disk? <==> c <= i < c + n))
            && (forall i :: 0 <= i < |devs| ==> (devs[i].device.EthernetCard? <==> c + n <= i))
  {
    var disks := DiskPart(diskTokens, datastore, scsiType).value;
    var nics := nicPart.value;
    var devs := disks + nics;
    if |diskTokens| > 0 {
      DiskLayout(diskTokens, datastore, scsiType);
      forall i | 0 <= i < |disks|
        ensures (disks[i].device.ScsiController? <==> i < 1) && (disks[i].device.Disk? <==> 1 <= i)
      {
        if i > 0 {
          assert disks[i] == disks[1..][i - 1];
        }
      }
    }
    forall i | 0 <= i < |devs|
      ensures i < |disks| ==> devs[i] == disks[i]
      ensures |disks| <= i ==> devs[i] == nics[i - |disks|]
    {
    }
  }

  /** Every adapter on the list carries its position as its key. */
  lemma NicLayout(requests: seq<NicRequest>, nicType: string)
    requires NicPart(requests, nicType).Ok?
    ensures var nics := NicPart(requests, nicType).value;
            && |nics| == |requests|
            && forall j :: 0 <= j < |requests| ==>
                 && nics[j].operation == Add && nics[j].device.EthernetCard?
                 && NicTag(nics[j].device.nicKind) == nicType
                 && nics[j].device.key == j && nics[j].device.networkName == requests[j].network
                 && (nics[j].device.addressType == Manual <==> Truthy(requests[j].mac))
                 && nics[j].device.macAddress == (if Truthy(requests[j].mac) then requests[j].mac else None)
  {
  }

  /** The adapter block of the command-line path: adapter `j` comes from `--nic` token `j`,
      after the controller and the disks. */
  lemma FlagsLayout(diskTokens: seq<string>, nicTokens: seq<string>, scsiType: string,
                    nicType: string, datastore: string)
    requires FlagsDevices(diskTokens, nicTokens, scsiType, nicType, datastore).Ok?
    ensures var devs := FlagsDevices(diskTokens, nicTokens, scsiType, nicType, datastore).value;
            var c, n, m := ControllerCount(|diskTokens|), |diskTokens|, |nicTokens|;
            && |devs| == c + n + m
            && (n == 0 && m == 0 ==> devs == [])
            && devs[..c + n] == DiskPart(diskTokens, datastore, scsiType).value
            && devs[c + n..] == NicPart(ParseNicTokens(nicTokens), nicType).value
    ensures var nics := FlagsDevices(diskTokens, nicTokens, scsiType, nicType, datastore).value
                          [ControllerCount(|diskTokens|) + |diskTokens|..];
            forall j :: 0 <= j < |nics| ==>
              nics[j].device.EthernetCard? && nics[j].device.key == j
              && nics[j].device.networkName == ParseNicToken(nicTokens[j]).network
  {
    var requests := ParseNicTokens(nicTokens);
    NicLayout(requests, nicType);
    DeviceOrder(diskTokens, datastore, scsiType, NicPart(requests, nicType));
  }

  /** Every disk on a command-line list lives on the datastore the VM's files use. */
  lemma FlagsDatastore(diskTokens: seq<string>, nicTokens: seq<string>, scsiType: string,
                       nicType: string, datastore: string)
    requires FlagsDevices(diskTokens, nicTokens, scsiType, nicType, datastore).Ok?
    ensures forall d :: (d in FlagsDevices(diskTokens, nicTokens, scsiType, nicType, datastore).value
                         && d.device.Disk?) ==> DatastoreOfPath(d.device.backing.fileName) == Some(datastore)
  {
    var requests := ParseNicTokens(nicTokens);
    NicLayout(requests, nicType);
    DeviceOrder(diskTokens, datastore, scsiType, NicPart(requests, nicType));
    var devs := FlagsDevices(diskTokens, nicTokens, scsiType, nicType, datastore).value;
    var n := |diskTokens|;
    forall d | d in devs && d.device.Disk?
      ensures DatastoreOfPath(d.device.backing.fileName) == Some(datastore)
    {
      var i :| 0 <= i < |devs| && devs[i] == d;
      DiskLayout(diskTokens, datastore, scsiType);
      assert 1 <= i < 1 + n;
      assert d == DiskPart(diskTokens, datastore, scsiType).value[1..][i - 1];
    }
  }

  /** Keys come from separate counters per kind, so with a disk and a NIC the controller,
      the first disk and the first adapter all carry key 0. */
  lemma KeysSharedAcrossKinds(diskTokens: seq<string>, nicTokens: seq<string>, scsiType: string,
                              nicType: string, datastore: string)
    requires FlagsDevices(diskTokens, nicTokens, scsiType, nicType, datastore).Ok?
    requires |diskTokens| > 0 && |nicTokens| > 0
    ensures var devs := FlagsDevices(diskTokens, nicTokens, scsiType, nicType, datastore).value;
            devs[0].device.key == devs[1].device.key == devs[1 + |diskTokens|].device.key == 0
  {
    FlagsLayout(diskTokens, nicTokens, scsiType, nicType, datastore);
    DiskLayout(diskTokens, datastore, scsiType);
    var devs := FlagsDevices(diskTokens, nicTokens, scsiType, nicType, datastore).value;
    var disks := DiskPart(diskTokens, datastore, scsiType).value;
    assert devs[0] == disks[0] && devs[1] == disks[1..][0];
    assert devs[1 + |diskTokens|] == devs[1 + |diskTokens|..][0];
  }

  lemma ExampleNumbers()
    ensures ParseInt("10") == Some(10) && ParseInt("20") == Some(20)
  {
    assert DecimalString(1) == "1" && DecimalString(10) == "10";
    assert DecimalString(2) == "2" && DecimalString(20) == "20";
    ParseFormatInt(10);
    ParseFormatInt(20);
  }

  /** "10" and "20" read as 10 and 20. */
  lemma ExampleSizes()
    ensures ParseDiskSizes(["10", "20"]) == Ok([10, 20])
  {
    ExampleNumbers();
    var tokens := ["10", "20"];
    assert tokens[0] == "10" && tokens[1] == "20";
    var r := ParseDiskSizes(tokens);
    assert r.Ok? && |r.value| == 2 && r.value[0] == 10 && r.value[1] == 20;
    assert r.value == [10, 20];
  }

  /** Sizes "10" and "20" on datastore1 behind an LSI Logic SAS controller. */
  lemma TwoDisks()
    ensures DiskPart(["10", "20"], "datastore1", "sas")
            == Ok([ScsiChange(0, 0, LsiLogicSas),
                   DeviceChange(Add, Some(Create), Disk(0, 10485760, 0, 0, DiskBacking("[datastore1]", "persistent", true))),
                   DeviceChange(Add, Some(Create), Disk(1, 20971520, 1, 0, DiskBacking("[datastore1]", "persistent", true)))])
  {
    ExampleSizes();
    var d0 := DeviceChange(Add, Some(Create), Disk(0, 10485760, 0, 0, DiskBacking("[datastore1]", "persistent", true)));
    var d1 := DeviceChange(Add, Some(Create), Disk(1, 20971520, 1, 0, DiskBacking("[datastore1]", "persistent", true)));
    assert DatastorePath("datastore1") == "[datastore1]";
    var disks := DiskDevices([10, 20], "datastore1");
    assert disks[0] == d0 && disks[1] == d1;
    assert disks == [d0, d1];
    var controller := ScsiChange(0, 0, LsiLogicSas);
    assert ScsiKindOf("sas") == Some(LsiLogicSas);
    assert CreateScsiSpec(0, 0, "sas") == Ok(controller);
    assert DiskPart(["10", "20"], "datastore1", "sas") == Ok([controller] + disks);
    assert [controller] + [d0, d1] == [controller, d0, d1];
  }

  /** The worked example: two 10 GB and 20 GB disks and one NIC on "VM Network" with a
      generated address give the controller, the two disks and the adapter, in that order. */
  lemma TwoDisksOneNic()
    ensures FlagsDevices(["10", "20"], ["VM Network"], "sas", "e1000", "datastore1")
            == Ok([ScsiChange(0, 0, LsiLogicSas),
                   DeviceChange(Add, Some(Create), Disk(0, 10485760, 0, 0, DiskBacking("[datastore1]", "persistent", true))),
                   DeviceChange(Add, Some(Create), Disk(1, 20971520, 1, 0, DiskBacking("[datastore1]", "persistent", true))),
                   DeviceChange(Add, None, EthernetCard(E1000, 0, "VM Network", Generated, None))])
  {
    TwoDisks();
    NicOnNetwork();
    var disks := DiskPart(["10", "20"], "datastore1", "sas").value;
    var nics := NicPart(ParseNicTokens(["VM Network"]), "e1000").value;
    assert FlagsDevices(["10", "20"], ["VM Network"], "sas", "e1000", "datastore1") == Ok(disks + nics);
    assert disks + nics == [disks[0], disks[1], disks[2], nics[0]];
  }

  /** A NIC token without a comma names a network and asks for a generated address. */
  lemma NicOnNetwork()
    ensures NicPart(ParseNicTokens(["VM Network"]), "e1000")
            == Ok([DeviceChange(Add, None, EthernetCard(E1000, 0, "VM Network", Generated, None))])
  {
    var t := "VM Network";
    assert forall i :: 0 <= i < |t| ==> t[i] != ',';
    var reqs := [NicRequest("VM Network", None)];
    assert ParseNicTokens(["VM Network"]) == reqs;
    assert NicKindOf("e1000") == Some(E1000);
    var nics := NicPart(reqs, "e1000").value;
    assert nics[0] == DeviceChange(Add, None, EthernetCard(E1000, 0, "VM Network", Generated, None));
    assert nics == [nics[0]];
  }
}
