/** The shared property-access layer of the bindings (`dbusBase` in utils.go):
    the match rules it registers for signals, the "unexpected variant type"
    error, and the typed property getters. The remote property read is an
    input (`Result<Variant, Error>`: the variant the bus returned, or the error
    it reported), and a Go `panic` is a `Failure`. */
module DBusBase {
  import opened Results
  import opened Ints
  import opened Text
  import MatchRules

  /** The NetworkManager service and interface name. The constant is declared
      in NetworkManager.go, which is not part of this model; this is its value
      in the NetworkManager D-Bus API. */
  const NetworkManagerInterface := "org.freedesktop.NetworkManager"

  /** A Go `error`, known by its message. */
  datatype Error = Error(message: string)

  /** A selection of the dynamic values `dbus.Variant.Value()` hands out: one
      constructor per Go type that a getter asserts, plus a few more integer
      types and nested variants. Floating-point numbers, signatures, Unix
      file descriptors, structs and the other array and dict types are not
      among them. */
  datatype Value =
    | ObjectPath(path: string)                   // dbus.ObjectPath, "o"
    | ObjectPaths(paths: seq<string>)            // []dbus.ObjectPath, "ao"
    | Bool(b: bool)                              // bool, "b"
    | Str(s: string)                             // string, "s"
    | Strs(ss: seq<string>)                      // []string, "as"
    | ByteSlices(bss: seq<seq<uint8>>)           // [][]byte, "aay"
    | VariantMap(m: map<string, Variant>)        // map[string]dbus.Variant, "a{sv}"
    | Byte(u8: uint8)                            // uint8, "y"
    | Uint32(u32: uint32)                        // uint32, "u"
    | Uint32s(u32s: seq<uint32>)                 // []uint32, "au"
    | Uint32Slices(u32ss: seq<seq<uint32>>)      // [][]uint32, "aau"
    | VariantMaps(ms: seq<map<string, Variant>>) // []map[string]dbus.Variant, "aa{sv}"
    | Bytes(bs: seq<uint8>)                      // []byte, "ay"
    | Int16(i16: int16)                          // int16, "n"
    | Uint16(u16: uint16)                        // uint16, "q"
    | Int32(i32: int32)                          // int32, "i"
    | Int64(i64: int64)                          // int64, "x"
    | Uint64(u64: uint64)                        // uint64, "t"
    | Nested(inner: Variant)                     // dbus.Variant, "v"

  /** `dbus.Variant`: a value in its dynamic-type envelope. */
  datatype Variant = Variant(value: Value)

  /** The runtime type of a value, which a Go type assertion tests. */
  datatype Shape =
    | ObjectPathShape | ObjectPathsShape | BoolShape | StrShape | StrsShape
    | ByteSlicesShape | VariantMapShape | ByteShape | Uint32Shape | Uint32sShape
    | Uint32SlicesShape | VariantMapsShape | BytesShape
    | Int16Shape | Uint16Shape | Int32Shape | Int64Shape | Uint64Shape | NestedShape

  function ShapeOf(v: Value): Shape {
    match v
    case ObjectPath(_) => ObjectPathShape
    case ObjectPaths(_) => ObjectPathsShape
    case Bool(_) => BoolShape
    case Str(_) => StrShape
    case Strs(_) => StrsShape
    case ByteSlices(_) => ByteSlicesShape
    case VariantMap(_) => VariantMapShape
    case Byte(_) => ByteShape
    case Uint32(_) => Uint32Shape
    case Uint32s(_) => Uint32sShape
    case Uint32Slices(_) => Uint32SlicesShape
    case VariantMaps(_) => VariantMapsShape
    case Bytes(_) => BytesShape
    case Int16(_) => Int16Shape
    case Uint16(_) => Uint16Shape
    case Int32(_) => Int32Shape
    case Int64(_) => Int64Shape
    case Uint64(_) => Uint64Shape
    case Nested(_) => NestedShape
  }

  // ---------------------------------------------------------------------------
  // Errors

  const VariantTypePrefix := "unexpected variant type for '"

  /** `makeErrVariantType`: the error a typed getter fails with. Its message
      names the property, which `VariantTypeSubject` recovers. */
  function ErrVariantType(iface: string): (e: Error)
    ensures VariantTypeSubject(e) == Some(iface)
  {
    var e := Error(VariantTypePrefix + iface + "'");
    assert e.message[..|VariantTypePrefix|] == VariantTypePrefix;
    assert e.message[|VariantTypePrefix|..|e.message| - 1] == iface;
    e
  }

  /** The property a variant-type error message is about, if it is one. */
  function VariantTypeSubject(e: Error): Option<string> {
    var m := e.message;
    if |VariantTypePrefix| < |m| && m[..|VariantTypePrefix|] == VariantTypePrefix && m[|m| - 1] == '\''
    then Some(m[|VariantTypePrefix|..|m| - 1])
    else None
  }

  /** Different properties give different error messages. */
  lemma ErrVariantTypeInjective(a: string, b: string)
    requires ErrVariantType(a) == ErrVariantType(b)
    ensures a == b
  {
    assert VariantTypeSubject(ErrVariantType(a)) == Some(a);
  }

  // ---------------------------------------------------------------------------
  // Property reads

  /** `getProperty`: the value inside the variant the bus returned; a failed
      read is passed on (the source panics with the bus error). */
  function GetProperty(read: Result<Variant, Error>): (r: Result<Value, Error>)
    ensures r.MapValue(v => Variant(v)) == read
  {
    match read
    case Success(variant) => Success(variant.value)
    case Failure(e) => Failure(e)
  }

  /** The getters' common pattern: read the property and keep its value only
      if it has the requested runtime shape. */
  function GetTypedProperty(read: Result<Variant, Error>, iface: string, want: Shape): (r: Result<Value, Error>)
    ensures r.Success? <==> read.Success? && ShapeOf(read.value.value) == want
    ensures r.Success? ==> r.value == read.value.value && ShapeOf(r.value) == want
    ensures read.Failure? ==> r == Failure(read.error)
    ensures read.Success? && r.Failure? ==> VariantTypeSubject(r.error) == Some(iface)
  {
    var v :- GetProperty(read);
    if ShapeOf(v) == want then Success(v) else Failure(ErrVariantType(iface))
  }

  /** A mismatched shape is never coerced: whatever the value and whatever
      shape is asked for, the getter either returns that very value or fails
      naming the property. */
  lemma {:induction false} TypedPropertyNeverCoerces(v: Value, iface: string, want: Shape)
    ensures GetTypedProperty(Success(Variant(v)), iface, want) ==
      if ShapeOf(v) == want then Success(v) else Failure(Error("unexpected variant type for '" + iface + "'"))
  {
  }

  // The typed getters. Each reads the property, passing a failed read on,
  // and matches the concrete constructor, as the source's type assertion
  // does; its contract says it is the common pattern at one shape with the
  // payload taken out of the value.

  function GetObjectProperty(read: Result<Variant, Error>, iface: string): (r: Result<string, Error>)
    ensures r.MapValue(x => ObjectPath(x)) == GetTypedProperty(read, iface, ObjectPathShape)
  {
    var v :- GetProperty(read);
    match v
    case ObjectPath(x) => Success(x)
    case _ => Failure(ErrVariantType(iface))
  }

  function GetSliceObjectProperty(read: Result<Variant, Error>, iface: string): (r: Result<seq<string>, Error>)
    ensures r.MapValue(x => ObjectPaths(x)) == GetTypedProperty(read, iface, ObjectPathsShape)
  {
    var v :- GetProperty(read);
    match v
    case ObjectPaths(x) => Success(x)
    case _ => Failure(ErrVariantType(iface))
  }

  function GetBoolProperty(read: Result<Variant, Error>, iface: string): (r: Result<bool, Error>)
    ensures r.MapValue(x => Bool(x)) == GetTypedProperty(read, iface, BoolShape)
  {
    var v :- GetProperty(read);
    match v
    case Bool(x) => Success(x)
    case _ => Failure(ErrVariantType(iface))
  }

  function GetStringProperty(read: Result<Variant, Error>, iface: string): (r: Result<string, Error>)
    ensures r.MapValue(x => Str(x)) == GetTypedProperty(read, iface, StrShape)
  {
    var v :- GetProperty(read);
    match v
    case Str(x) => Success(x)
    case _ => Failure(ErrVariantType(iface))
  }

  function GetSliceStringProperty(read: Result<Variant, Error>, iface: string): (r: Result<seq<string>, Error>)
    ensures r.MapValue(x => Strs(x)) == GetTypedProperty(read, iface, StrsShape)
  {
    var v :- GetProperty(read);
    match v
    case Strs(x) => Success(x)
    case _ => Failure(ErrVariantType(iface))
  }

  function GetSliceSliceByteProperty(read: Result<Variant, Error>, iface: string): (r: Result<seq<seq<uint8>>, Error>)
    ensures r.MapValue(x => ByteSlices(x)) == GetTypedProperty(read, iface, ByteSlicesShape)
  {
    var v :- GetProperty(read);
    match v
    case ByteSlices(x) => Success(x)
    case _ => Failure(ErrVariantType(iface))
  }

  function GetMapStringVariantProperty(read: Result<Variant, Error>, iface: string): (r: Result<map<string, Variant>, Error>)
    ensures r.MapValue(x => VariantMap(x)) == GetTypedProperty(read, iface, VariantMapShape)
  {
    var v :- GetProperty(read);
    match v
    case VariantMap(x) => Success(x)
    case _ => Failure(ErrVariantType(iface))
  }

  function GetUint8Property(read: Result<Variant, Error>, iface: string): (r: Result<uint8, Error>)
    ensures r.MapValue(x => Byte(x)) == GetTypedProperty(read, iface, ByteShape)
  {
    var v :- GetProperty(read);
    match v
    case Byte(x) => Success(x)
    case _ => Failure(ErrVariantType(iface))
  }

  function GetUint32Property(read: Result<Variant, Error>, iface: string): (r: Result<uint32, Error>)
    ensures r.MapValue(x => Uint32(x)) == GetTypedProperty(read, iface, Uint32Shape)
  {
    var v :- GetProperty(read);
    match v
    case Uint32(x) => Success(x)
    case _ => Failure(ErrVariantType(iface))
  }

  function GetSliceUint32Property(read: Result<Variant, Error>, iface: string): (r: Result<seq<uint32>, Error>)
    ensures r.MapValue(x => Uint32s(x)) == GetTypedProperty(read, iface, Uint32sShape)
  {
    var v :- GetProperty(read);
    match v
    case Uint32s(x) => Success(x)
    case _ => Failure(ErrVariantType(iface))
  }

  function GetSliceSliceUint32Property(read: Result<Variant, Error>, iface: string): (r: Result<seq<seq<uint32>>, Error>)
    ensures r.MapValue(x => Uint32Slices(x)) == GetTypedProperty(read, iface, Uint32SlicesShape)
  {
    var v :- GetProperty(read);
    match v
    case Uint32Slices(x) => Success(x)
    case _ => Failure(ErrVariantType(iface))
  }

  function GetSliceMapStringVariantProperty(read: Result<Variant, Error>, iface: string): (r: Result<seq<map<string, Variant>>, Error>)
    ensures r.MapValue(x => VariantMaps(x)) == GetTypedProperty(read, iface, VariantMapsShape)
  {
    var v :- GetProperty(read);
    match v
    case VariantMaps(x) => Success(x)
    case _ => Failure(ErrVariantType(iface))
  }

  function GetSliceByteProperty(read: Result<Variant, Error>, iface: string): (r: Result<seq<uint8>, Error>)
    ensures r.MapValue(x => Bytes(x)) == GetTypedProperty(read, iface, BytesShape)
  {
    var v :- GetProperty(read);
    match v
    case Bytes(x) => Success(x)
    case _ => Failure(ErrVariantType(iface))
  }

  // ---------------------------------------------------------------------------
  // Signal subscription rules

  /** The match rule `subscribe(iface, member)` registers for the object at
      `path`, as written: the `member=` criterion carries
      `NetworkManagerInterface` and the `member` argument is not used. */
  function SubscribeRule(iface: string, member: string, path: string): string {
    "type='signal',interface='" + iface + "',path='" + path + "',member='" + NetworkManagerInterface + "'"
  }

  /** The rule `subscribeNamespace(namespace)` registers. */
  function SubscribeNamespaceRule(namespace: string): string {
    "type='signal',path_namespace='" + namespace + "'"
  }

  /** The rule `subscribe(iface, member)` evidently means to register: the
      same criteria, with `member` in the `member=` criterion. */
  function SubscribeMemberRule(iface: string, member: string, path: string): string {
    "type='signal',interface='" + iface + "',path='" + path + "',member='" + member + "'"
  }

  /** A D-Bus member name (D-Bus Specification, "Valid Names"): 1 to 255
      characters from `[A-Za-z0-9_]`, not starting with a digit. */
  predicate IsMemberName(s: string) {
    && 1 <= |s| <= 255
    && !IsDigit(s[0])
    && forall i :: 0 <= i < |s| ==> IsDigit(s[i]) || 'A' <= s[i] <= 'Z' || 'a' <= s[i] <= 'z' || s[i] == '_'
  }

  lemma NetworkManagerInterfaceUnquoted()
    ensures '\'' !in NetworkManagerInterface
  {
  }

  /** The first criterion with key "member" in a rule of the shape the
      bindings build. */
  lemma LookupMember(a: string, b: string, c: string, d: string)
    ensures MatchRules.Lookup([MatchRules.Criterion("type", a), MatchRules.Criterion("interface", b),
                               MatchRules.Criterion("path", c), MatchRules.Criterion("member", d)], "member") == Some(d)
  {
    var cs := [MatchRules.Criterion("type", a), MatchRules.Criterion("interface", b),
               MatchRules.Criterion("path", c), MatchRules.Criterion("member", d)];
    assert "type" != "member" && "interface" != "member" && "path" != "member";
    assert MatchRules.Lookup(cs[3..], "member") == Some(d);
    assert cs[2..][1..] == cs[3..];
    assert MatchRules.Lookup(cs[2..], "member") == Some(d);
    assert cs[1..][1..] == cs[2..];
  }

  /** The criterion keys the bindings use are well-formed keys. */
  lemma RuleKeyWellFormed(key: string, value: string)
    requires key == "type" || key == "interface" || key == "path" || key == "member" || key == "path_namespace"
    requires '\'' !in value
    ensures MatchRules.WellFormed(MatchRules.Criterion(key, value))
  {
  }

  lemma CriterionText(key: string, value: string, rest: string)
    ensures MatchRules.FormatCriterion(MatchRules.Criterion(key, value)) + "," + rest
         == key + "='" + value + "'," + rest
  {
  }

  lemma Regroup(x: string, l1: string, l2: string, l3: string)
    ensures x + l1 + l2 + l3 == x + (l1 + l2 + l3)
  {
  }

  lemma NestedTemplate(k0: string, v0: string, k1: string, k2: string, k3: string, b: string, c: string, d: string)
    ensures k0 + "='" + v0 + "'," + (k1 + "='" + b + "'," + (k2 + "='" + c + "'," + (k3 + "='" + d + "'")))
         == k0 + "='" + v0 + "'," + k1 + "='" + b + "'," + k2 + "='" + c + "'," + k3 + "='" + d + "'"
  {
  }

  lemma TemplateText(b: string, c: string, d: string)
    ensures "type" + "='" + "signal" + "'," + ("interface" + "='" + b + "'," + ("path" + "='" + c + "'," + ("member" + "='" + d + "'")))
         == "type='signal',interface='" + b + "',path='" + c + "',member='" + d + "'"
  {
    NestedTemplate("type", "signal", "interface", "path", "member", b, c, d);
    assert "type" + "='" + "signal" + "'," + "interface" + "='" == "type='signal',interface='";
    var x := "type='signal',interface='" + b;
    Regroup(x, "',", "path", "='");
    assert "'," + "path" + "='" == "',path='";
    var y := x + "',path='" + c;
    Regroup(y, "',", "member", "='");
    assert "'," + "member" + "='" == "',member='";
  }

  lemma NetworkManagerInterfaceNotMember()
    ensures !IsMemberName(NetworkManagerInterface)
  {
    assert NetworkManagerInterface[3] == '.';
  }

  lemma NamespaceText(namespace: string)
    ensures MatchRules.FormatCriterion(MatchRules.Criterion("type", "signal")) + ","
          + MatchRules.FormatCriterion(MatchRules.Criterion("path_namespace", namespace))
         == "type='signal',path_namespace='" + namespace + "'"
  {
    assert "type" + "='" + "signal" + "'" + "," + "path_namespace" + "='" == "type='signal',path_namespace='";
  }

  /** The four-criterion rule the bindings build, written as one template. */
  lemma FourCriteriaRule(b: string, c: string, d: string)
    ensures MatchRules.Format([MatchRules.Criterion("type", "signal"), MatchRules.Criterion("interface", b),
                               MatchRules.Criterion("path", c), MatchRules.Criterion("member", d)])
         == "type='signal',interface='" + b + "',path='" + c + "',member='" + d + "'"
  {
    var c0, c1, c2, c3 := MatchRules.Criterion("type", "signal"), MatchRules.Criterion("interface", b),
                          MatchRules.Criterion("path", c), MatchRules.Criterion("member", d);
    var last := "member" + "='" + d + "'";
    assert MatchRules.Format([c3]) == last;
    MatchRules.FormatCons(c2, [c3]);
    CriterionText("path", c, last);
    var two := "path" + "='" + c + "'," + last;
    assert [c2] + [c3] == [c2, c3];
    assert MatchRules.Format([c2, c3]) == two;
    MatchRules.FormatCons(c1, [c2, c3]);
    CriterionText("interface", b, two);
    var three := "interface" + "='" + b + "'," + two;
    assert [c1] + [c2, c3] == [c1, c2, c3];
    assert MatchRules.Format([c1, c2, c3]) == three;
    MatchRules.FormatCons(c0, [c1, c2, c3]);
    CriterionText("type", "signal", three);
    assert [c0] + [c1, c2, c3] == [c0, c1, c2, c3];
    assert MatchRules.Format([c0, c1, c2, c3]) == "type" + "='" + "signal" + "'," + three;
    TemplateText(b, c, d);
  }

  /** Read back, the rule `subscribe` builds says: signals, from interface
      `iface`, on the object at `path`, with member `NetworkManagerInterface`,
      whatever `member` is. */
  lemma {:induction false} SubscribeRuleCriteria(iface: string, member: string, path: string)
    requires '\'' !in iface && '\'' !in path
    ensures MatchRules.Parse(SubscribeRule(iface, member, path)) == Some([
      MatchRules.Criterion("type", "signal"), MatchRules.Criterion("interface", iface),
      MatchRules.Criterion("path", path), MatchRules.Criterion("member", NetworkManagerInterface)])
  {
    var cs := [MatchRules.Criterion("type", "signal"), MatchRules.Criterion("interface", iface),
               MatchRules.Criterion("path", path), MatchRules.Criterion("member", NetworkManagerInterface)];
    FourCriteriaRule(iface, path, NetworkManagerInterface);
    assert MatchRules.Format(cs) == SubscribeRule(iface, member, path);
    NetworkManagerInterfaceUnquoted();
    RuleKeyWellFormed("type", "signal");
    RuleKeyWellFormed("interface", iface);
    RuleKeyWellFormed("path", path);
    RuleKeyWellFormed("member", NetworkManagerInterface);
    MatchRules.ParseFormat(cs);
    assert MatchRules.Parse(MatchRules.Format(cs)) == Some(cs);
  }

  /** The member criterion of the rule `subscribe` builds is not a member
      name, so no signal can match it. */
  lemma SubscribeRuleMemberInvalid(iface: string, member: string, path: string)
    requires '\'' !in iface && '\'' !in path
    ensures var cs := MatchRules.Parse(SubscribeRule(iface, member, path));
      && cs.Some?
      && MatchRules.Lookup(cs.value, "member").Some?
      && !IsMemberName(MatchRules.Lookup(cs.value, "member").value)
  {
    SubscribeRuleCriteria(iface, member, path);
    LookupMember("signal", iface, path, NetworkManagerInterface);
    NetworkManagerInterfaceNotMember();
  }

  /** The corrected rule reads back with `member` in the member criterion. */
  lemma {:induction false} SubscribeMemberRuleCriteria(iface: string, member: string, path: string)
    requires '\'' !in iface && '\'' !in path && '\'' !in member
    ensures MatchRules.Parse(SubscribeMemberRule(iface, member, path)) == Some([
      MatchRules.Criterion("type", "signal"), MatchRules.Criterion("interface", iface),
      MatchRules.Criterion("path", path), MatchRules.Criterion("member", member)])
    ensures MatchRules.Lookup(MatchRules.Parse(SubscribeMemberRule(iface, member, path)).value, "member") == Some(member)
  {
    var cs := [MatchRules.Criterion("type", "signal"), MatchRules.Criterion("interface", iface),
               MatchRules.Criterion("path", path), MatchRules.Criterion("member", member)];
    FourCriteriaRule(iface, path, member);
    assert MatchRules.Format(cs) == SubscribeMemberRule(iface, member, path);
    RuleKeyWellFormed("type", "signal");
    RuleKeyWellFormed("interface", iface);
    RuleKeyWellFormed("path", path);
    RuleKeyWellFormed("member", member);
    MatchRules.ParseFormat(cs);
    assert MatchRules.Parse(MatchRules.Format(cs)) == Some(cs);
    LookupMember("signal", iface, path, member);
  }

  /** Read back, the rule `subscribeNamespace` builds says: signals, from
      objects at or below `namespace`. */
  lemma {:induction false} SubscribeNamespaceRuleCriteria(namespace: string)
    requires '\'' !in namespace
    ensures MatchRules.Parse(SubscribeNamespaceRule(namespace)) == Some([
      MatchRules.Criterion("type", "signal"), MatchRules.Criterion("path_namespace", namespace)])
  {
    var cs := [MatchRules.Criterion("type", "signal"), MatchRules.Criterion("path_namespace", namespace)];
    assert cs[1..] == [cs[1]];
    NamespaceText(namespace);
    assert MatchRules.Format(cs) == SubscribeNamespaceRule(namespace);
    RuleKeyWellFormed("type", "signal");
    RuleKeyWellFormed("path_namespace", namespace);
    MatchRules.ParseFormat(cs);
    assert MatchRules.Parse(MatchRules.Format(cs)) == Some(cs);
  }
}
