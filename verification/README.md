# gonetworkmanager DHCP4Config and property helpers, in Dafny

This project models the pure logic of the `gonetworkmanager` Go bindings for
NetworkManager's D-Bus API. It covers three things:

- the shared property-access layer `dbusBase` (utils.go). This includes the
  typed property getters, the "unexpected variant type" error, the match
  rules that `subscribe` and `subscribeNamespace` register, and
  `ip4ToString`;
- the `DHCP4Config` facade (DHCP4Config.go). This includes the `Options`
  property name, `GetPropertyOptions` and the structure of `MarshalJSON`'s
  document;
- the D-Bus match-rule grammar (D-Bus Specification, section "Match Rules"),
  as a reader used to state what a built rule says.

The remote property read is an input to every getter, of type
`Result<Variant, Error>`. A successful read is the variant the bus returned;
a failed read is the error the bus reported. A Go `panic` becomes a
`Failure`. D-Bus values are the `Value` datatype. It holds a selection of
the Go types that `dbus.Variant.Value()` can hold: every type a getter asserts,
a few more integer types, and nested variants. IPv4 addresses are unsigned 32-bit
integers. Each shift-and-mask is written as division and remainder by a power
of 256.

Files:

- `Results.dfy`: `Option` and `Result`.
- `Ints.dfy`: Go's fixed-width integer ranges.
- `Text.dfy`: decimal numerals, and split and join on a separator.
- `Ip4.dfy`: `ip4ToString`, plus an independent dotted-quad reader, `ParseIp4`.
- `MatchRules.dfy`: formatting and reading of match rules.
- `DBusBase.dfy`: the utils.go layer.
- `DHCP4Config.dfy`: the facade.

## Model

| member | source | states |
|---|---|---|
| `Ip4.PutUint32` | utils.go:180-181 | `binary.LittleEndian.PutUint32` yields four bytes, and recombining them little-endian (low-order byte first) gives back `ip`. |
| `Ip4.PutUint32OfUint32` | utils.go:180-181 | The converse round trip: splitting the little-endian word made from any four bytes gives back those bytes. |
| `Ip4.Ip4ToStringFields` | utils.go:179-182 | The text splits on `.` into exactly four fields and holds exactly three dots. Field i is a decimal numeral without leading zeros whose value is `(ip >> 8i) & 0xFF`, so the low-order byte prints first. |
| `Ip4.Ip4ToStringLength` | utils.go:182 | Every rendering is 7 to 15 characters long. |
| `Ip4.Ip4ToStringParse` | utils.go:179-182 | In both directions, `ip4ToString(ip) == s` holds exactly when the dotted-quad reader reads `s` as `ip`. The rendering is the one canonical text for the address. |
| `Ip4.Ip4ToStringInjective` | utils.go:179-182 | Distinct addresses render as distinct texts. |
| `Text.Decimal` | utils.go:182 | A byte's decimal form, as `net.IP.String` prints it, is a canonical numeral (digits only, no leading zero) that denotes the byte. |
| `Text.DecimalLength` | utils.go:182 | The decimal form has 1, 2 or 3 digits exactly when the value is below 10, 100 or 1000. |
| `Text.DecimalOfDigitsValue` | utils.go:182 | Every canonical numeral is the rendering of its own value, so rendering is a bijection onto canonical numerals. |
| `DBusBase.SubscribeRuleCriteria` | utils.go:52-54 | Read back as a match rule, the rule `subscribe` builds has four criteria: `type` is `signal`, `interface` is `iface`, `path` is the object's path, and `member` is `NetworkManagerInterface`. The `member` argument does not appear. |
| `DBusBase.SubscribeRuleMemberInvalid` | utils.go:52-54 | The value of that rule's `member` criterion is not a valid D-Bus member name (see Findings). |
| `DBusBase.SubscribeMemberRuleCriteria` | utils.go:52-54 | The corrected rule reads back with the `member` argument in the `member` criterion. |
| `DBusBase.SubscribeNamespaceRuleCriteria` | utils.go:58-59 | The rule `subscribeNamespace(ns)`, which is `type='signal',path_namespace='` + ns + `'`, reads back as exactly two criteria: signals, and `path_namespace` equal to `ns`. |
| `DBusBase.ErrVariantType` | utils.go:175-177 | The error message is `unexpected variant type for '` + iface + `'`, and the property name can be recovered from it. |
| `DBusBase.ErrVariantTypeInjective` | utils.go:175-177 | Different properties yield different errors. |
| `DBusBase.GetProperty` | utils.go:63-69 | Wrapping the returned value back in a variant gives the read. A failed read fails with the bus's own error, where the source panics with it. |
| `DBusBase.GetTypedProperty` | utils.go:71-173 | The common getter pattern succeeds exactly when the read succeeded and the value has the requested shape. On success it returns that same value, never one of another shape. A failed read passes its error through. A shape mismatch fails with the error that names the property. |
| `DBusBase.TypedPropertyNeverCoerces` | utils.go:71-77 | For any value and any requested shape, a getter returns the value unchanged when the shapes match. Otherwise it fails with `unexpected variant type for '<iface>'`. |
| `DBusBase.GetObjectProperty` | utils.go:71-77 | Agrees with the common pattern at shape `dbus.ObjectPath`. |
| `DBusBase.GetSliceObjectProperty` | utils.go:79-85 | Agrees with the common pattern at shape `[]dbus.ObjectPath`. |
| `DBusBase.GetBoolProperty` | utils.go:87-93 | Agrees with the common pattern at shape `bool`. |
| `DBusBase.GetStringProperty` | utils.go:95-101 | Agrees with the common pattern at shape `string`. |
| `DBusBase.GetSliceStringProperty` | utils.go:103-109 | Agrees with the common pattern at shape `[]string`. |
| `DBusBase.GetSliceSliceByteProperty` | utils.go:111-117 | Agrees with the common pattern at shape `[][]byte`. |
| `DBusBase.GetMapStringVariantProperty` | utils.go:119-125 | Agrees with the common pattern at shape `map[string]dbus.Variant`. |
| `DBusBase.GetUint8Property` | utils.go:127-133 | Agrees with the common pattern at shape `uint8`. |
| `DBusBase.GetUint32Property` | utils.go:135-141 | Agrees with the common pattern at shape `uint32`. |
| `DBusBase.GetSliceUint32Property` | utils.go:143-149 | Agrees with the common pattern at shape `[]uint32`. |
| `DBusBase.GetSliceSliceUint32Property` | utils.go:151-157 | Agrees with the common pattern at shape `[][]uint32`. |
| `DBusBase.GetSliceMapStringVariantProperty` | utils.go:159-165 | Agrees with the common pattern at shape `[]map[string]dbus.Variant`. |
| `DBusBase.GetSliceByteProperty` | utils.go:167-173 | Agrees with the common pattern at shape `[]byte`. |
| `DHCP4Config.PropertyOptionsName` | DHCP4Config.go:9-14 | `DHCP4ConfigPropertyOptions` is `NetworkManagerInterface` + `.DHCP4Config` + `.Options`, that is, `org.freedesktop.NetworkManager.DHCP4Config.Options`. |
| `DHCP4Config.Unwrapped` | DHCP4Config.go:41-43 | Unwrapping keeps exactly the input's keys. Wrapping each unwrapped value in a variant again gives back the input's entry. |
| `DHCP4Config.GetPropertyOptions` | DHCP4Config.go:34-46 | After a failed read, the result is an empty map paired with that error. If the property is not a map of variants, the result is an empty map and an error naming the `Options` property. After a successful read, there is no error, the key set equals the input's, and each entry is the value inside the input variant at that key. The key-by-key copy loop builds the same map. |
| `DHCP4Config.MarshalJSON` | DHCP4Config.go:48-53 | The document has exactly one key, `Options`, whose value is what `GetPropertyOptions` returns. A read error is discarded: a failed read still gives `{"Options": {}}`, and no error is reported. |
| `DHCP4Config.LeaseOptionsExample` | DHCP4Config.go:34-46 | Options `dhcp_lease_time` = "3600" and `routers` = "192.0.2.1", sent as variants, come back as the same two plain strings. |

## Left out

- Bus connection and remote calls: `init` and `dbus.SystemBus` (utils.go:20-31), `callAndPanic`, `call`, `callWithReturn` and `callWithReturn2` (utils.go:33-50), and the remote `GetProperty` (utils.go:64). These are calls into godbus and NetworkManager. The read is an input value or a failure instead.
- The `AddMatch` calls in `subscribe` and `subscribeNamespace` (utils.go:55, 60): the rules are built, but they are not sent. The reply is ignored in the source anyway.
- `NewDHCP4Config` (DHCP4Config.go:25-28): this is wiring of a bus object.
- The byte-level JSON text produced by `encoding/json` (DHCP4Config.go:52). `MarshalJSON` returns the document as a map. Nothing here models the serialisation of values or the round trip through a JSON parser.
- DHCP4Config.go:35 destructures two results from `getMapStringVariantProperty`, which returns one (utils.go:119). The model reads the property through the typed getter as a `Result`. Any failure of that getter, whether a failed read or a shape mismatch, takes the error path at DHCP4Config.go:37-39. In the source, those failures would panic inside the getter.
- Go panics are `Failure` results, not unwinding control flow.
- `NetworkManagerInterface` is declared in NetworkManager.go, which is not part of this model. Its value `org.freedesktop.NetworkManager` is the service name of the NetworkManager D-Bus API.
- `dbus.Variant` also carries a signature string. It is not modelled, because godbus derives it from the value.
- `Value` leaves out several Go types that godbus decodes: `float64` (signature `d`), `dbus.Signature` (`g`), `dbus.UnixFDIndex` (`h`), structs (decoded as `[]interface{}`), and arrays and dicts of the element types not listed, such as `[]int32` (`ai`) or `map[string]string` (`a{ss}`). No typed getter asserts them. `GetPropertyOptions` passes option values of any type through unchanged (DHCP4Config.go:42). Its contract is stated over the modelled types only, and those values are unwrapped the same way.
- DHCP4Config.MarshalJSON: the error that `json.Marshal` itself can return (DHCP4Config.go:52) is not modelled, and `err.None?` holds only because no modelled value can trigger it. `json.Marshal` fails on a NaN or infinite `float64` and on a map with bool or float keys, and neither is a `Value`.
- Go map iteration order: `GetPropertyOptions` copies keys in an arbitrary order, chosen nondeterministically in the loop. The result does not depend on that order.
- `MatchRules.Parse` does not implement the apostrophe escaping of the D-Bus match-rule grammar. The lemmas about built rules therefore require `iface`, the object path and the namespace to contain no apostrophe. D-Bus interface names and object paths never do.

## Findings

| source | as written | input that shows it | evidently intended | confidence | as-written member | corrected member |
|---|---|---|---|---|---|---|
| utils.go:52-54 | `subscribe(iface, member)` fills the rule's `member='%s'` slot with `NetworkManagerInterface` and ignores its `member` argument | `subscribe("org.freedesktop.NetworkManager.Device", "StateChanged")` registers `...,member='org.freedesktop.NetworkManager'`. That is not a valid D-Bus member name because it contains `.`. The bus refuses such a rule, and the refusal goes unnoticed because the `AddMatch` reply is ignored | `member='<member>'` | medium (not executed) | `DBusBase.SubscribeRuleMemberInvalid` | `DBusBase.SubscribeMemberRuleCriteria` |
