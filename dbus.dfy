/**
 * The D-Bus vocabulary the daemon speaks: interface names, the errors its
 * handlers raise, and the variant values that make up property
 * dictionaries (`a{sv}`).
 */
module DBus {
  import opened Utf8

  const LE_ADVERTISEMENT_IFACE: string := "org.bluez.LEAdvertisement1"
  const GATT_SERVICE_IFACE: string := "org.bluez.GattService1"
  const GATT_CHRC_IFACE: string := "org.bluez.GattCharacteristic1"
  const GATT_DESC_IFACE: string := "org.bluez.GattDescriptor1"

  /**
   * Errors a handler reports to its caller: `InvalidArgs` and
   * `NotSupported` are the daemon's D-Bus exceptions; `RuntimeError` is
   * Python's, raised when a thread object is started a second time.
   */
  datatype Error = InvalidArgs | NotSupported | RuntimeError

  /** A variant value inside a property dictionary. */
  datatype Value =
    | Str(s: string)
    | Boolean(b: bool)
    | ObjectPath(path: string)
    | StrArray(items: seq<string>)
    | PathArray(paths: seq<string>)
    | BytesByCode(byCode: map<int, seq<byte>>)
    | BytesByUuid(byUuid: map<string, seq<byte>>)

  /** The properties of one interface: `a{sv}`. */
  type Properties = map<string, Value>

  /** What `get_properties` returns: the properties, keyed by interface name. */
  type Interfaces = map<string, Properties>
}
