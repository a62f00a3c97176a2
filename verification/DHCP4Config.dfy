/** The DHCP4Config facade (DHCP4Config.go): the options the IPv4 DHCP server
    sent, read from the `Options` property as a map of variants and unwrapped
    to plain values, and their JSON document `{"Options": ...}`. The remote
    read of the property is an input. */
module DHCP4Config {
  import opened Results
  import opened DBusBase

  const DHCP4ConfigInterface := NetworkManagerInterface + ".DHCP4Config"

  /** The name the `Options` property is read under. */
  const DHCP4ConfigPropertyOptions := DHCP4ConfigInterface + ".Options"

  /** `DHCP4Options`: option name to unwrapped value. */
  type DHCP4Options = map<string, Value>

  lemma PropertyOptionsName()
    ensures DHCP4ConfigInterface == "org.freedesktop.NetworkManager.DHCP4Config"
    ensures DHCP4ConfigPropertyOptions == "org.freedesktop.NetworkManager.DHCP4Config.Options"
  {
  }

  /** Each variant of `options` replaced by the value inside it: the same keys,
      and wrapping each value again gives back the input. */
  function Unwrapped(options: map<string, Variant>): (rv: DHCP4Options)
    ensures rv.Keys == options.Keys
    ensures forall k :: k in rv ==> Variant(rv[k]) == options[k]
  {
    map k | k in options :: options[k].value
  }

  /** What `GetPropertyOptions` returns: the unwrapped options with no error,
      or an empty map with the error of the failed read. */
  function PropertyOptions(read: Result<Variant, Error>): (DHCP4Options, Option<Error>) {
    match GetMapStringVariantProperty(read, DHCP4ConfigPropertyOptions)
    case Failure(e) => (map[], Some(e))
    case Success(options) => (Unwrapped(options), None)
  }

  /** `GetPropertyOptions`: reads the `Options` property as a map of variants
      and copies it, one key at a time, into a fresh map of plain values. */
  method GetPropertyOptions(read: Result<Variant, Error>) returns (rv: DHCP4Options, err: Option<Error>)
    ensures (rv, err) == PropertyOptions(read)
    ensures read.Failure? ==> rv == map[] && err == Some(read.error)
    ensures read.Success? && !read.value.value.VariantMap? ==>
      rv == map[] && err.Some? && VariantTypeSubject(err.value) == Some(DHCP4ConfigPropertyOptions)
    ensures read.Success? && read.value.value.VariantMap? ==>
      && err.None?
      && rv.Keys == read.value.value.m.Keys
      && forall k :: k in rv ==> Variant(rv[k]) == read.value.value.m[k]
  {
    var got := GetMapStringVariantProperty(read, DHCP4ConfigPropertyOptions);
    rv := map[];
    if got.Failure? {
      return rv, Some(got.error);
    }
    var options := got.value;
    var remaining := options.Keys;
    while remaining != {}
      invariant remaining <= options.Keys
      invariant rv.Keys == options.Keys - remaining
      invariant forall k :: k in rv ==> rv[k] == options[k].value
      decreases |remaining|
    {
      var k :| k in remaining;
      rv := rv[k := options[k].value];
      remaining := remaining - {k};
    }
    assert rv == Unwrapped(options);
    return rv, None;
  }

  /** `MarshalJSON`, up to the byte encoding: a document with the single key
      "Options" holding what `GetPropertyOptions` returns. The read error is
      dropped; a failed read gives `{"Options": {}}`. The encoder's own error
      is not modelled, since no `Value` here can make `json.Marshal` fail. */
  method MarshalJSON(read: Result<Variant, Error>) returns (doc: map<string, DHCP4Options>, err: Option<Error>)
    ensures doc.Keys == {"Options"}
    ensures doc["Options"] == PropertyOptions(read).0
    ensures PropertyOptions(read).1.Some? ==> doc["Options"] == map[]
    ensures err.None?
  {
    var options, _ := GetPropertyOptions(read);
    doc := map["Options" := options];
    err := None;
  }

  /** Two string options arrive as variants and come back as plain strings. */
  lemma {:induction false} LeaseOptionsExample()
    ensures PropertyOptions(Success(Variant(VariantMap(map[
      "dhcp_lease_time" := Variant(Str("3600")),
      "routers" := Variant(Str("192.0.2.1"))])))) ==
      (map["dhcp_lease_time" := Str("3600"), "routers" := Str("192.0.2.1")], None)
  {
    var options := map["dhcp_lease_time" := Variant(Str("3600")), "routers" := Variant(Str("192.0.2.1"))];
    var rv := Unwrapped(options);
    assert rv.Keys == {"dhcp_lease_time", "routers"};
    assert rv == map["dhcp_lease_time" := Str("3600"), "routers" := Str("192.0.2.1")];
  }
}
