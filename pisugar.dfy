/**
 * The PiSugar wifi-configuration service: its eight characteristics at
 * indices 0 to 7, the two read-only descriptors on the first two, which
 * handlers each characteristic overrides, and how the application object
 * is put together.
 */
module PiSugar {
  import opened Wrappers
  import opened Text
  import opened Utf8
  import opened DBus
  import opened Gatt
  import opened GattTree

  const SERVICE_UUID: string := "fd2b4448-aa0f-4a15-a62f-eb0be77a0000"
  /** What the service-name characteristic and descriptor read back. */
  const SERVICE_NAME: string := "PiSugar BLE Wifi Config"
  /** What the device-model descriptor reads back. */
  const DEVICE_MODEL_LABEL: string := "Raspberry Hardware Model"

  /** The characteristics of the service. */
  datatype ChrcKind =
    | ServiceName | DeviceModel | WifiName | IPAddress
    | Input | InputSep | InputNotifyMessage | Command

  /** The characteristics in the order the service adds them; a kind's position is its index. */
  const KINDS: seq<ChrcKind> :=
    [ServiceName, DeviceModel, WifiName, IPAddress, Input, InputSep, InputNotifyMessage, Command]

  /** Each characteristic's UUID: the service's UUID with a different last part. */
  function ChrcUuid(kind: ChrcKind): (r: string)
  {
    match kind
    case ServiceName => "fd2b4448-aa0f-4a15-a62f-eb0be77a0001"
    case DeviceModel => "fd2b4448-aa0f-4a15-a62f-eb0be77a0002"
    case WifiName => "fd2b4448-aa0f-4a15-a62f-eb0be77a0003"
    case IPAddress => "fd2b4448-aa0f-4a15-a62f-eb0be77a0004"
    case Input => "fd2b4448-aa0f-4a15-a62f-eb0be77a0005"
    case InputNotifyMessage => "fd2b4448-aa0f-4a15-a62f-eb0be77a0006"
    case InputSep => "fd2b4448-aa0f-4a15-a62f-eb0be77a0007"
    case Command => "fd2b4448-aa0f-4a15-a62f-eb0be77a0020"
  }

  /** Every characteristic's UUID is the service's UUID with a different last part, and no two are alike. */
  lemma ChrcUuidsDistinct(a: ChrcKind, b: ChrcKind)
    ensures |ChrcUuid(a)| == |SERVICE_UUID| && ChrcUuid(a)[..32] == SERVICE_UUID[..32] && ChrcUuid(a) != SERVICE_UUID
    ensures a != b ==> ChrcUuid(a) != ChrcUuid(b)
  {
    assert ChrcUuid(a)[34..] != SERVICE_UUID[34..];
    if a != b {
      assert ChrcUuid(a)[34..] != ChrcUuid(b)[34..];
    }
  }

  /** The flags each characteristic advertises to clients. */
  function ChrcFlags(kind: ChrcKind): (r: seq<string>)
    ensures |r| >= 1
    ensures forall i :: 0 <= i < |r| ==> r[i] in {"read", "write", "write-without-response", "notify"}
  {
    match kind
    case ServiceName => ["read"]
    case DeviceModel => ["read"]
    case WifiName => ["notify"]
    case IPAddress => ["notify"]
    case Input => ["write", "write-without-response"]
    case InputSep => ["write", "write-without-response"]
    case InputNotifyMessage => ["notify"]
    case Command => ["write", "write-without-response", "notify"]
  }

  /** The UUID of the one descriptor a characteristic's constructor adds, if it adds one. */
  function DescriptorUuid(kind: ChrcKind): (r: Option<string>)
    ensures r.Some? <==> ReadValue in Overrides(kind)
  {
    match kind
    case ServiceName => Some("2001")
    case DeviceModel => Some("2002")
    case _ => None
  }

  /** The handlers of `Characteristic` that a subclass replaces; the rest raise `NotSupported`. */
  datatype Handler = ReadValue | WriteValue | StartNotify | StopNotify

  function Overrides(kind: ChrcKind): set<Handler> {
    match kind
    case ServiceName => {ReadValue}
    case DeviceModel => {ReadValue}
    case WifiName => {StartNotify, StopNotify}
    case IPAddress => {StartNotify, StopNotify}
    case Input => {WriteValue}
    case InputSep => {WriteValue}
    case InputNotifyMessage => {StartNotify, StopNotify}
    case Command => {WriteValue}
  }

  /**
   * Every characteristic advertises exactly the operations it implements,
   * except the command characteristic: it advertises `notify` but keeps
   * the default `StartNotify`, so a client that subscribes gets
   * `NotSupported`.
   */
  lemma FlagsMatchHandlers(kind: ChrcKind)
    ensures kind != Command ==>
      && ("read" in ChrcFlags(kind) <==> ReadValue in Overrides(kind))
      && ("write" in ChrcFlags(kind) <==> WriteValue in Overrides(kind))
      && ("notify" in ChrcFlags(kind) <==> StartNotify in Overrides(kind) && StopNotify in Overrides(kind))
    ensures kind == Command ==>
      "notify" in ChrcFlags(kind) && StartNotify !in Overrides(kind) && StopNotify !in Overrides(kind)
  {
    assert "read" != "notify" && "read" != "write" && "read" != "write-without-response";
    assert "write" != "notify" && "write" != "write-without-response";
    assert "notify" != "write-without-response";
  }

  /**
   * `DeviceModelChrc`'s model text: the contents of the device-tree model
   * file, or the empty string when the file does not exist.
   */
  function ModelText(modelFile: Option<string>): string {
    match modelFile
    case Some(text) => text
    case None => ""
  }

  /** The text a characteristic's `ReadValue` returns, for the two readable ones. */
  function ChrcText(kind: ChrcKind, modelFile: Option<string>): (r: Option<string>)
    ensures r.Some? <==> ReadValue in Overrides(kind)
  {
    match kind
    case ServiceName => Some(SERVICE_NAME)
    case DeviceModel => Some(ModelText(modelFile))
    case _ => None
  }

  /** The text a descriptor's `ReadValue` returns; the only descriptors are those `DescriptorUuid` names. */
  function DescText(kind: ChrcKind): (r: Option<string>)
    ensures r.Some? <==> DescriptorUuid(kind).Some?
  {
    match kind
    case ServiceName => Some(SERVICE_NAME)
    case DeviceModel => Some(DEVICE_MODEL_LABEL)
    case _ => None
  }

  /** The bytes a read returns: the UTF-8 encoding of the text, or `NotSupported` without one. */
  function ReadBytes(text: Option<string>): (r: Result<seq<byte>, Error>)
    ensures r.Success? <==> text.Some?
    ensures r.Failure? ==> r.error == NotSupported
    ensures r.Success? ==> Decode(r.value) == text
  {
    match text
    case None => Failure(NotSupported)
    case Some(t) => DecodeEncode(t); Success(Encode(t))
  }

  /** `ReadValue` on a characteristic succeeds exactly on the two that override it. */
  lemma ChrcReadValue(kind: ChrcKind, modelFile: Option<string>)
    ensures ReadBytes(ChrcText(kind, modelFile)).Success? <==> ReadValue in Overrides(kind)
    ensures ReadBytes(ChrcText(kind, modelFile)).Success? ==>
      Decode(ReadBytes(ChrcText(kind, modelFile)).value) == Some(if kind == ServiceName then SERVICE_NAME else ModelText(modelFile))
    ensures kind == DeviceModel && modelFile.None? ==> Decode(ReadBytes(ChrcText(kind, modelFile)).value) == Some("")
  {
  }

  /** `ReadValue` on a descriptor succeeds on every descriptor the constructors add. */
  lemma DescReadValue(kind: ChrcKind)
    ensures ReadBytes(DescText(kind)).Success? <==> DescriptorUuid(kind).Some?
    ensures ReadBytes(DescText(kind)).Success? ==>
      Decode(ReadBytes(DescText(kind)).value) == Some(if kind == ServiceName then SERVICE_NAME else DEVICE_MODEL_LABEL)
  {
  }

  /** The snapshot of the characteristic of kind `kind` at index `i` of the service at `sp`. */
  function ExpectedChrc(kind: ChrcKind, sp: string, i: nat): ChrcNode {
    var path := ChrcPath(sp, i);
    var descs := match DescriptorUuid(kind)
      case Some(uuid) => [DescNode(DescPath(path, 0), uuid, ["read"], path)]
      case None => [];
    ChrcNode(path, ChrcUuid(kind), ChrcFlags(kind), sp, descs)
  }

  /** The snapshot of the whole service at index `index`. */
  function ExpectedService(index: nat): ServiceNode {
    var sp := ServicePath(index);
    ServiceNode(sp, SERVICE_UUID, true, seq(|KINDS|, i requires 0 <= i < |KINDS| => ExpectedChrc(KINDS[i], sp, i)))
  }

  /**
   * The subclass constructors: a characteristic of kind `kind` at `index`
   * under `service`, with its descriptor at index 0 when it has one.
   */
  method NewCharacteristic(kind: ChrcKind, index: nat, service: Service) returns (c: Characteristic)
    ensures fresh(c) && c.Node() == ExpectedChrc(kind, service.path, index)
  {
    c := new Characteristic(index, ChrcUuid(kind), ChrcFlags(kind), service);
    match DescriptorUuid(kind) {
      case Some(uuid) =>
        var d := new Descriptor(0, uuid, ["read"], c);
        c.AddDescriptor(d);
      case None =>
    }
  }

  /** `add_characteristic` of a new characteristic of kind `kind` at `index`. */
  method AddNew(s: Service, kind: ChrcKind, index: nat) returns (c: Characteristic)
    modifies s
    ensures s.characteristics == old(s.characteristics) + [c] && fresh(c)
    ensures ChrcNodes(s.characteristics) == old(ChrcNodes(s.characteristics)) + [ExpectedChrc(kind, s.path, index)]
  {
    ghost var before := ChrcNodes(s.characteristics);
    c := NewCharacteristic(kind, index, s);
    assert ChrcNodes(s.characteristics) == before;
    s.AddCharacteristic(c);
    assert s.characteristics[..|s.characteristics| - 1] == old(s.characteristics);
  }

  /** `PiSugarWifiConfigService(bus, index)`: the service with its eight characteristics. */
  method NewService(index: nat) returns (s: Service)
    ensures fresh(s) && s.Node() == ExpectedService(index)
  {
    s := new Service(index, SERVICE_UUID, true);
    var sp := s.path;
    var _ := AddNew(s, ServiceName, 0);
    var _ := AddNew(s, DeviceModel, 1);
    var _ := AddNew(s, WifiName, 2);
    var _ := AddNew(s, IPAddress, 3);
    var _ := AddNew(s, Input, 4);
    var _ := AddNew(s, InputSep, 5);
    var _ := AddNew(s, InputNotifyMessage, 6);
    var _ := AddNew(s, Command, 7);
    ExpectedChrcs(index);
  }

  /** The characteristics of `ExpectedService`, written out in the order the constructor adds them. */
  lemma ExpectedChrcs(index: nat)
    ensures var sp := ServicePath(index);
      ExpectedService(index).chrcs ==
        [] + [ExpectedChrc(ServiceName, sp, 0)] + [ExpectedChrc(DeviceModel, sp, 1)]
        + [ExpectedChrc(WifiName, sp, 2)] + [ExpectedChrc(IPAddress, sp, 3)]
        + [ExpectedChrc(Input, sp, 4)] + [ExpectedChrc(InputSep, sp, 5)]
        + [ExpectedChrc(InputNotifyMessage, sp, 6)] + [ExpectedChrc(Command, sp, 7)]
  {
  }

  /** `PiSugarWifiConfigApplication(bus)`: the application holding service 0. */
  method NewApplication() returns (app: Application)
    ensures fresh(app) && app.path == "/" && app.Tree() == [ExpectedService(0)]
  {
    app := new Application();
    var s := NewService(0);
    ghost var node := s.Node();
    app.AddService(s);
    assert app.services == [s];
    assert s.Node() == node;
  }

  /** The service is laid out as the constructors lay out any tree: every child at its own index. */
  lemma ExpectedServiceWellPlaced(index: nat)
    ensures ServiceAt(ExpectedService(index), index)
  {
    var s := ExpectedService(index);
    forall i | 0 <= i < |s.chrcs|
      ensures ChrcAt(s.chrcs[i], s.path, i)
    {
      assert s.chrcs[i] == ExpectedChrc(KINDS[i], s.path, i);
    }
  }

  /** Of the eight characteristics, the first two carry one descriptor each. */
  lemma ExpectedDescCount(index: nat)
    ensures |ExpectedService(index).chrcs| == 8
    ensures DescCount(ExpectedService(index).chrcs) == 2
  {
    var cs := ExpectedService(index).chrcs;
    forall i | 0 <= i < 8
      ensures |cs[i].descs| == if i < 2 then 1 else 0
    {
      assert cs[i] == ExpectedChrc(KINDS[i], cs[i].servicePath, i);
    }
    TwoDescriptors(cs);
  }

  /** Eight characteristics of which only the first two carry a descriptor, one each, have two in all. */
  lemma {:induction false} TwoDescriptors(cs: seq<ChrcNode>)
    requires |cs| == 8
    requires forall i :: 0 <= i < 8 ==> |cs[i].descs| == if i < 2 then 1 else 0
    ensures DescCount(cs) == 2
  {
    assert cs[..0] == [];
    assert DescCount(cs[..1]) == 1 by { assert cs[..1][..0] == cs[..0]; }
    assert DescCount(cs[..2]) == 2 by { assert cs[..2][..1] == cs[..1]; }
    assert DescCount(cs[..3]) == 2 by { assert cs[..3][..2] == cs[..2]; }
    assert DescCount(cs[..4]) == 2 by { assert cs[..4][..3] == cs[..3]; }
    assert DescCount(cs[..5]) == 2 by { assert cs[..5][..4] == cs[..4]; }
    assert DescCount(cs[..6]) == 2 by { assert cs[..6][..5] == cs[..5]; }
    assert DescCount(cs[..7]) == 2 by { assert cs[..7][..6] == cs[..6]; }
    assert DescCount(cs[..8]) == 2 by { assert cs[..8][..7] == cs[..7]; }
    assert cs[..8] == cs;
  }

  /**
   * `GetManagedObjects` on the PiSugar application answers with eleven
   * objects (one service, eight characteristics, two descriptors) under
   * eleven different paths, each with its own interfaces.
   */
  lemma PiSugarManagedObjects()
    ensures |Entries([ExpectedService(0)])| == 11
    ensures |ToMap(Entries([ExpectedService(0)])).Keys| == 11
    ensures Distinct(EntryPaths(Entries([ExpectedService(0)])))
  {
    ExpectedServiceWellPlaced(0);
    ExpectedDescCount(0);
    ServiceObjectsDistinct(ExpectedService(0), 0);
  }
}
