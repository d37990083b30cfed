/**
 * The LE advertisement object (`Advertisement`): optional fields that the
 * `add_*` methods fill in, and the property dictionary built from them,
 * where a key is present exactly when its field is set.
 */
module Advertising {
  import opened Wrappers
  import opened Utf8
  import opened DBus
  import opened Gatt
  import PiSugar

  const AD_PATH_BASE: string := "/com/pisugar/wifi/advertisement"

  /** The fields of an advertisement; `None` stands for Python's `None`. */
  datatype AdFields = AdFields(
    adType: string,
    serviceUuids: Option<seq<string>>,
    solicitUuids: Option<seq<string>>,
    manufacturerData: Option<map<int, seq<byte>>>,
    serviceData: Option<map<string, seq<byte>>>,
    localName: Option<string>,
    includeTxPower: Option<bool>,
    data: Option<map<int, seq<byte>>>)

  /** Every key `get_properties` may put in the dictionary. */
  const AD_KEYS: set<string> :=
    {"Type", "ServiceUUIDs", "SolicitUUIDs", "ManufacturerData", "ServiceData", "LocalName", "IncludeTxPower", "Data"}

  /** `None` and an empty list or dictionary both count as "not yet set" for the `add_*` methods. */
  function Items<T>(o: Option<seq<T>>): seq<T> {
    match o
    case None => []
    case Some(items) => items
  }

  function Dict<K, V>(o: Option<map<K, V>>): map<K, V> {
    match o
    case None => map[]
    case Some(m) => m
  }

  /** `properties[key] = value` when the field is not `None`. */
  function Put(p: Properties, key: string, v: Option<Value>): Properties {
    match v
    case None => p
    case Some(x) => p[key := x]
  }

  /** `get_properties`' dictionary for the advertisement interface. */
  function AdProperties(f: AdFields): (r: Properties)
    ensures "Type" in r && r["Type"] == Str(f.adType)
  {
    var p := map["Type" := Str(f.adType)];
    var p := Put(p, "ServiceUUIDs", if f.serviceUuids.Some? then Some(StrArray(f.serviceUuids.value)) else None);
    var p := Put(p, "SolicitUUIDs", if f.solicitUuids.Some? then Some(StrArray(f.solicitUuids.value)) else None);
    var p := Put(p, "ManufacturerData", if f.manufacturerData.Some? then Some(BytesByCode(f.manufacturerData.value)) else None);
    var p := Put(p, "ServiceData", if f.serviceData.Some? then Some(BytesByUuid(f.serviceData.value)) else None);
    var p := Put(p, "LocalName", if f.localName.Some? then Some(Str(f.localName.value)) else None);
    var p := Put(p, "IncludeTxPower", if f.includeTxPower.Some? then Some(Boolean(f.includeTxPower.value)) else None);
    Put(p, "Data", if f.data.Some? then Some(BytesByCode(f.data.value)) else None)
  }

  /**
   * The dictionary always holds `Type`, holds each optional key exactly
   * when its field is set, and holds nothing else.
   */
  lemma AdPropertiesKeys(f: AdFields)
    ensures var r := AdProperties(f);
      && r.Keys <= AD_KEYS
      && "Type" in r
      && ("ServiceUUIDs" in r <==> f.serviceUuids.Some?)
      && ("SolicitUUIDs" in r <==> f.solicitUuids.Some?)
      && ("ManufacturerData" in r <==> f.manufacturerData.Some?)
      && ("ServiceData" in r <==> f.serviceData.Some?)
      && ("LocalName" in r <==> f.localName.Some?)
      && ("IncludeTxPower" in r <==> f.includeTxPower.Some?)
      && ("Data" in r <==> f.data.Some?)
  {
    KeysDiffer();
  }

  /** Each key present holds its own field's value, wrapped as its D-Bus type. */
  lemma AdPropertiesValues(f: AdFields)
    ensures var r := AdProperties(f);
      && "Type" in r && r["Type"] == Str(f.adType)
      && (f.serviceUuids.Some? ==> "ServiceUUIDs" in r && r["ServiceUUIDs"] == StrArray(f.serviceUuids.value))
      && (f.solicitUuids.Some? ==> "SolicitUUIDs" in r && r["SolicitUUIDs"] == StrArray(f.solicitUuids.value))
      && (f.manufacturerData.Some? ==> "ManufacturerData" in r && r["ManufacturerData"] == BytesByCode(f.manufacturerData.value))
      && (f.serviceData.Some? ==> "ServiceData" in r && r["ServiceData"] == BytesByUuid(f.serviceData.value))
      && (f.localName.Some? ==> "LocalName" in r && r["LocalName"] == Str(f.localName.value))
      && (f.includeTxPower.Some? ==> "IncludeTxPower" in r && r["IncludeTxPower"] == Boolean(f.includeTxPower.value))
      && (f.data.Some? ==> "Data" in r && r["Data"] == BytesByCode(f.data.value))
  {
    KeysDiffer();
  }

  /** The two pairs of keys of equal length are different strings (the other keys differ in length). */
  lemma KeysDiffer()
    ensures "Type" != "Data" && "ServiceUUIDs" != "SolicitUUIDs"
  {
    assert "Type"[0] != "Data"[0];
    assert "ServiceUUIDs"[1] != "SolicitUUIDs"[1];
  }

  /** `get_properties`: the dictionary under the advertisement interface, and only that one. */
  function AdInterfaces(f: AdFields): (r: Interfaces)
    ensures r.Keys == {LE_ADVERTISEMENT_IFACE} && r[LE_ADVERTISEMENT_IFACE] == AdProperties(f)
  {
    map[LE_ADVERTISEMENT_IFACE := AdProperties(f)]
  }

  /** `GetAll`: the properties for the advertisement interface, `InvalidArgs` for any other. */
  function AdGetAll(f: AdFields, iface: string): (r: Result<Properties, Error>)
    ensures r.Success? <==> iface in AdInterfaces(f)
    ensures r.Success? ==> r.value == AdInterfaces(f)[iface]
    ensures r.Failure? ==> r.error == InvalidArgs
  {
    if iface != LE_ADVERTISEMENT_IFACE then Failure(InvalidArgs) else Success(AdProperties(f))
  }

  class Advertisement {
    const path: string
    const adType: string
    var serviceUuids: Option<seq<string>>
    var solicitUuids: Option<seq<string>>
    var manufacturerData: Option<map<int, seq<byte>>>
    var serviceData: Option<map<string, seq<byte>>>
    var localName: Option<string>
    var includeTxPower: Option<bool>
    var data: Option<map<int, seq<byte>>>

    function Fields(): AdFields
      reads this
    {
      AdFields(adType, serviceUuids, solicitUuids, manufacturerData, serviceData, localName, includeTxPower, data)
    }

    /** A new advertisement at `index`: only its type is set. */
    constructor(index: nat, adType: string)
      ensures path == Indexed(AD_PATH_BASE, index)
      ensures Fields() == AdFields(adType, None, None, None, None, None, None, None)
    {
      path := Indexed(AD_PATH_BASE, index);
      this.adType := adType;
      serviceUuids, solicitUuids := None, None;
      manufacturerData, serviceData := None, None;
      localName, includeTxPower, data := None, None, None;
    }

    method AddServiceUuid(uuid: string)
      modifies this
      ensures Fields() == old(Fields()).(serviceUuids := Some(Items(old(serviceUuids)) + [uuid]))
    {
      var items := if serviceUuids.None? || serviceUuids.value == [] then [] else serviceUuids.value;
      serviceUuids := Some(items + [uuid]);
    }

    method AddSolicitUuid(uuid: string)
      modifies this
      ensures Fields() == old(Fields()).(solicitUuids := Some(Items(old(solicitUuids)) + [uuid]))
    {
      var items := if solicitUuids.None? || solicitUuids.value == [] then [] else solicitUuids.value;
      solicitUuids := Some(items + [uuid]);
    }

    method AddManufacturerData(code: int, bytes: seq<byte>)
      modifies this
      ensures Fields() == old(Fields()).(manufacturerData := Some(Dict(old(manufacturerData))[code := bytes]))
    {
      var m := if manufacturerData.None? || manufacturerData.value == map[] then map[] else manufacturerData.value;
      manufacturerData := Some(m[code := bytes]);
    }

    method AddServiceData(uuid: string, bytes: seq<byte>)
      modifies this
      ensures Fields() == old(Fields()).(serviceData := Some(Dict(old(serviceData))[uuid := bytes]))
    {
      var m := if serviceData.None? || serviceData.value == map[] then map[] else serviceData.value;
      serviceData := Some(m[uuid := bytes]);
    }

    /** The name replaces any earlier one. */
    method AddLocalName(name: string)
      modifies this
      ensures Fields() == old(Fields()).(localName := Some(name))
    {
      if localName.None? || localName.value == "" {
        localName := Some("");
      }
      localName := Some(name);
    }

    method AddData(adType: int, bytes: seq<byte>)
      modifies this
      ensures Fields() == old(Fields()).(data := Some(Dict(old(data))[adType := bytes]))
    {
      var m := if data.None? || data.value == map[] then map[] else data.value;
      data := Some(m[adType := bytes]);
    }
  }

  /**
   * After `add_service_uuid` the advertisement lists the earlier UUIDs, in
   * order, followed by the new one.
   */
  lemma AddedUuidAdvertised(f: AdFields, uuid: string)
    ensures var r := AdProperties(f.(serviceUuids := Some(Items(f.serviceUuids) + [uuid])));
      "ServiceUUIDs" in r && r["ServiceUUIDs"] == StrArray(Items(f.serviceUuids) + [uuid])
  {
    AdPropertiesValues(f.(serviceUuids := Some(Items(f.serviceUuids) + [uuid])));
  }

  /** The fields of `PiSugarWifiConfigAdvertisement`. */
  function PiSugarAdFields(): AdFields {
    AdFields("peripheral", Some([PiSugar.SERVICE_UUID]), None, None, None, Some("pisugar"), Some(true), None)
  }

  /** `PiSugarWifiConfigAdvertisement(bus, index)`: a peripheral advertising the service UUID and the name. */
  method NewPiSugarAdvertisement(index: nat) returns (ad: Advertisement)
    ensures fresh(ad) && ad.path == Indexed(AD_PATH_BASE, index) && ad.Fields() == PiSugarAdFields()
  {
    ad := new Advertisement(index, "peripheral");
    ad.AddServiceUuid(PiSugar.SERVICE_UUID);
    assert [] + [PiSugar.SERVICE_UUID] == [PiSugar.SERVICE_UUID];
    ad.AddLocalName("pisugar");
    ad.includeTxPower := Some(true);
  }

  /**
   * What BlueZ reads from the PiSugar advertisement: exactly the type, the
   * one service UUID, the local name and the transmit-power flag.
   */
  lemma PiSugarAdvertised()
    ensures AdProperties(PiSugarAdFields()) == map[
      "Type" := Str("peripheral"),
      "ServiceUUIDs" := StrArray([PiSugar.SERVICE_UUID]),
      "LocalName" := Str("pisugar"),
      "IncludeTxPower" := Boolean(true)]
  {
    var r := AdProperties(PiSugarAdFields());
    assert r.Keys == {"Type", "ServiceUUIDs", "LocalName", "IncludeTxPower"};
  }
}
