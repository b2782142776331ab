/** Typed publications on the wire: values become JSON, and declared types read it back. */
module Wire {
  import opened Wrappers

  datatype Json = JNull | JBool(b: bool) | JInt(i: int) | JFloat(r: real) | JStr(s: string)
    | JArray(items: seq<Json>) | JObject(members: seq<(string, Json)>)

  /** How a record's constructor treats its fields. */
  datatype Maker = Plain | ChannelDefinition | CaptureTarget

  datatype Field = Field(name: string, kind: Type, default: Option<Value>)

  datatype Type = Str | Int | Bool | Float | Null | PathText
    | Enum(members: seq<Json>)
    | Union(options: seq<Type>)
    | Tuple(parts: seq<Type>)
    | Many(part: Type)
    | Record(fields: seq<Field>, maker: Maker)

  datatype Value = VStr(s: string) | VInt(i: int) | VBool(b: bool) | VFloat(r: real) | VNull | VPath(s: string)
    | VEnum(member: Json)
    | VTuple(items: seq<Value>)
    | VRecord(names: seq<string>, values: seq<Value>)

  // ----- writing -----

  function ToWire(v: Value): Json
    decreases v
  {
    match v
    case VStr(s) => JStr(s)
    case VInt(i) => JInt(i)
    case VBool(b) => JBool(b)
    case VFloat(r) => JFloat(r)
    case VNull => JNull
    case VPath(s) => JStr(s)
    case VEnum(m) => m
    case VTuple(items) => JArray(ToEach(items))
    case VRecord(names, values) => JObject(Zip(names, ToEach(values)))
  }

  function ToEach(vs: seq<Value>): (r: seq<Json>)
    ensures |r| == |vs| && forall k :: 0 <= k < |vs| ==> r[k] == ToWire(vs[k])
    decreases vs
  {
    if vs == [] then [] else [ToWire(vs[0])] + ToEach(vs[1..])
  }

  function Zip(names: seq<string>, items: seq<Json>): seq<(string, Json)> {
    if names == [] || items == [] then [] else [(names[0], items[0])] + Zip(names[1..], items[1..])
  }

  // ----- constructors -----

  const CHANNEL_FIELDS := 11

  /** A channel definition: the primary frequency must be positive; it is the default centre; an
      80+80 definition without a second centre is incomplete and ambiguous. */
  function MakeChannel(values: seq<Value>): Option<seq<Value>> {
    if |values| != CHANNEL_FIELDS || !values[0].VInt? || values[0].i <= 0 then None
    else
      var centred := if values[2] == VNull then values[2 := values[0]] else values;
      var partial := values[1] == VEnum(JStr("80+80")) && values[3] == VNull;
      Some(if partial then centred[7 := VBool(false)][9 := VBool(true)] else centred)
  }

  predicate WordChar(c: char) { 'A' <= c <= 'Z' || 'a' <= c <= 'z' || '0' <= c <= '9' || c == '_' }

  predicate NameChar(c: char) { WordChar(c) || c == '.' || c == '-' }

  predicate InterfaceName(s: string) { 1 <= |s| <= 15 && forall c :: c in s ==> NameChar(c) }

  predicate NamespaceName(s: string) { s != "" && WordChar(s[0]) && forall c :: c in s ==> NameChar(c) }

  /** A capture target: an interface name, and a network namespace if any. Nothing else is built. */
  function MakeTarget(values: seq<Value>): Option<seq<Value>> {
    if |values| == 2 && values[0].VStr? && InterfaceName(values[0].s)
       && (values[1] == VNull || (values[1].VStr? && NamespaceName(values[1].s)))
    then Some(values)
    else None
  }

  /** What a channel definition is built from, and what of its fields construction fills in. */
  lemma ChannelExactly(values: seq<Value>)
    ensures MakeChannel(values).Some? <==> |values| == 11 && values[0].VInt? && values[0].i > 0
    ensures MakeChannel(values).Some? ==>
              var made := MakeChannel(values).value;
              var partial := values[1] == VEnum(JStr("80+80")) && values[3].VNull?;
              && |made| == 11 && (forall k :: 0 <= k < 11 && k !in {2, 7, 9} ==> made[k] == values[k])
              && made[2] == (if values[2].VNull? then values[0] else values[2])
              && made[7] == (if partial then VBool(false) else values[7])
              && made[9] == (if partial then VBool(true) else values[9])
  {}

  /** Letters, digits, underscore, dot and hyphen, by their ASCII codes. */
  predicate Permitted(c: char) {
    var n := c as int;
    48 <= n <= 57 || 65 <= n <= 90 || 97 <= n <= 122 || n == 95 || n == 45 || n == 46
  }

  /** What may be a capture target. */
  lemma TargetExactly(values: seq<Value>)
    ensures MakeTarget(values) == Some(values) <==>
              && |values| == 2
              && values[0].VStr? && 1 <= |values[0].s| <= 15 && (forall c :: c in values[0].s ==> Permitted(c))
              && (values[1].VNull?
                  || (values[1].VStr? && values[1].s != "" && (forall c :: c in values[1].s ==> Permitted(c))
                      && values[1].s[0] != '.' && values[1].s[0] != '-'))
    ensures MakeTarget(values).None? || MakeTarget(values) == Some(values)
  {
    assert forall c :: NameChar(c) <==> Permitted(c);
    assert forall c :: WordChar(c) <==> Permitted(c) && c != '.' && c != '-';
    hide NameChar, WordChar, Permitted;
  }

  function Make(m: Maker, values: seq<Value>): Option<seq<Value>> {
    match m
    case Plain => Some(values)
    case ChannelDefinition => MakeChannel(values)
    case CaptureTarget => MakeTarget(values)
  }

  /** Constructing from the fields of something constructed changes nothing more. */
  lemma MakeIdempotent(m: Maker, values: seq<Value>)
    ensures var made := Make(m, values);
            made.Some? ==> |made.value| == |values| && Make(m, made.value) == made
  {
    if m.ChannelDefinition? && MakeChannel(values).Some? {
      var once := MakeChannel(values).value;
      assert once[0] == values[0] && once[1] == values[1] && once[3] == values[3] && once[2] != VNull;
      assert MakeChannel(once).value == once;
    }
  }

  // ----- reading -----

  function Lookup(members: seq<(string, Json)>, name: string): Option<Json> {
    if members == [] then None
    else if members[0].0 == name then Some(members[0].1)
    else Lookup(members[1..], name)
  }

  predicate Known(fields: seq<Field>, name: string) { exists f :: f in fields && f.name == name }

  function Names(fields: seq<Field>): (r: seq<string>)
    ensures |r| == |fields| && forall k :: 0 <= k < |fields| ==> r[k] == fields[k].name
  {
    if fields == [] then [] else [fields[0].name] + Names(fields[1..])
  }

  function FromWire(t: Type, j: Json): Option<Value>
    decreases t, 0
  {
    match t
    case Str => if j.JStr? then Some(VStr(j.s)) else None
    case Int => if j.JInt? then Some(VInt(j.i)) else None
    case Bool => if j.JBool? then Some(VBool(j.b)) else None
    case Float => if j.JFloat? then Some(VFloat(j.r)) else if j.JInt? then Some(VFloat(j.i as real)) else None
    case Null => if j.JNull? then Some(VNull) else None
    case PathText => if j.JStr? && '\0' !in j.s then Some(VPath(j.s)) else None
    case Enum(members) => if j in members then Some(VEnum(j)) else None
    case Union(options) => FromFirst(options, j)
    case Tuple(parts) =>
      if !j.JArray? || |j.items| != |parts| then None
      else
        var items := FromEach(parts, j.items);
        if items.None? then None else Some(VTuple(items.value))
    case Many(part) =>
      if !j.JArray? then None
      else
        var items := FromMany(part, j.items);
        if items.None? then None else Some(VTuple(items.value))
    case Record(fields, maker) =>
      if !j.JObject? || exists m :: m in j.members && !Known(fields, m.0) then None
      else
        var values := FromFields(fields, j.members);
        if values.None? || Make(maker, values.value).None? then None
        else Some(VRecord(Names(fields), Make(maker, values.value).value))
  }

  /** The first option that accepts. */
  function FromFirst(options: seq<Type>, j: Json): Option<Value>
    decreases options, 0
  {
    if options == [] then None
    else
      var v := FromWire(options[0], j);
      if v.Some? then v else FromFirst(options[1..], j)
  }

  function FromEach(parts: seq<Type>, items: seq<Json>): (r: Option<seq<Value>>)
    requires |parts| == |items|
    ensures r.Some? ==> |r.value| == |items|
    decreases parts, 0
  {
    if parts == [] then Some([])
    else
      var v, rest := FromWire(parts[0], items[0]), FromEach(parts[1..], items[1..]);
      if v.None? || rest.None? then None else Some([v.value] + rest.value)
  }

  function FromMany(part: Type, items: seq<Json>): (r: Option<seq<Value>>)
    ensures r.Some? ==> |r.value| == |items|
    decreases part, 1, items
  {
    if items == [] then Some([])
    else
      var v, rest := FromWire(part, items[0]), FromMany(part, items[1..]);
      if v.None? || rest.None? then None else Some([v.value] + rest.value)
  }

  /** A missing member takes the field's default, if it has one. */
  function FromFields(fields: seq<Field>, members: seq<(string, Json)>): (r: Option<seq<Value>>)
    ensures r.Some? ==> |r.value| == |fields|
    decreases fields, 0
  {
    if fields == [] then Some([])
    else
      var j := Lookup(members, fields[0].name);
      var v := if j.Some? then FromWire(fields[0].kind, j.value) else fields[0].default;
      var rest := FromFields(fields[1..], members);
      if v.None? || rest.None? then None else Some([v.value] + rest.value)
  }

  // ----- what round-trips -----

  /** The shape of every published type: a union is one other type or null; field names differ. */
  ghost predicate Published(t: Type)
    decreases t
  {
    match t
    case Union(options) =>
      && |options| == 2 && options[1].Null?
      && !options[0].Null? && !options[0].Union? && !Nullable(options[0]) && Published(options[0])
    case Tuple(parts) => forall p :: p in parts ==> Published(p)
    case Many(part) => Published(part)
    case Record(fields, _) =>
      && (forall i, j :: 0 <= i < j < |fields| ==> fields[i].name != fields[j].name)
      && forall f :: f in fields ==> Published(f.kind)
    case _ => true
  }

  predicate Nullable(t: Type) { t.Enum? && JNull in t.members }

  /** A value of a type, as the program holds it: a record is what its own constructor made. */
  ghost predicate HasType(v: Value, t: Type)
    decreases t
  {
    match t
    case Str => v.VStr?
    case Int => v.VInt?
    case Bool => v.VBool?
    case Float => v.VFloat?
    case Null => v.VNull?
    case PathText => v.VPath? && '\0' !in v.s
    case Enum(members) => v.VEnum? && v.member in members
    case Union(options) => exists o :: o in options && HasType(v, o)
    case Tuple(parts) => v.VTuple? && |v.items| == |parts| && forall k :: 0 <= k < |parts| ==>
      HasType(v.items[k], parts[k])
    case Many(part) => v.VTuple? && forall i :: i in v.items ==> HasType(i, part)
    case Record(fields, maker) =>
      && v.VRecord? && v.names == Names(fields) && |v.values| == |fields|
      && (forall k :: 0 <= k < |fields| ==> HasType(v.values[k], fields[k].kind))
      && Make(maker, v.values) == Some(v.values)
  }

  lemma NotNull(v: Value, t: Type)
    requires !t.Null? && !t.Union? && !Nullable(t)
    ensures FromWire(t, JNull).None?
    ensures HasType(v, t) ==> ToWire(v) != JNull
  {}

  lemma OptionalRoundTrip(options: seq<Type>, v: Value)
    requires Published(Union(options)) && HasType(v, Union(options))
    requires HasType(v, options[0]) ==> FromWire(options[0], ToWire(v)) == Some(v)
    ensures FromFirst(options, ToWire(v)) == Some(v)
  {
    NotNull(v, options[0]);
    var o :| o in options && HasType(v, o);
    assert o == options[0] || o == options[1];
    assert FromFirst(options[1..], JNull) == Some(VNull);
  }

  /** Reading what was written gives the value back. */
  lemma {:induction false} RoundTrip(t: Type, v: Value)
    requires Published(t) && HasType(v, t)
    ensures FromWire(t, ToWire(v)) == Some(v)
    decreases t, 0
  {
    match t
    case Union(options) =>
      if HasType(v, options[0]) { RoundTrip(options[0], v); }
      OptionalRoundTrip(options, v);
    case Tuple(parts) => EachRoundTrip(parts, v.items);
    case Many(part) => ManyRoundTrip(part, v.items);
    case Record(fields, _) =>
      var members := Zip(Names(fields), ToEach(v.values));
      ZipNames(fields, v.values);
      FieldsRoundTrip(fields, v.values, members);
    case _ =>
  }

  lemma {:induction false} EachRoundTrip(parts: seq<Type>, items: seq<Value>)
    requires |parts| == |items| && (forall p :: p in parts ==> Published(p))
    requires forall k :: 0 <= k < |parts| ==> HasType(items[k], parts[k])
    ensures FromEach(parts, ToEach(items)) == Some(items)
    decreases parts, 0
  {
    hide FromWire, ToWire, HasType, Published;
    if parts != [] {
      RoundTrip(parts[0], items[0]);
      EachRoundTrip(parts[1..], items[1..]);
      assert items == [items[0]] + items[1..];
      assert ToEach(items)[1..] == ToEach(items[1..]);
    }
  }

  lemma {:induction false} ManyRoundTrip(part: Type, items: seq<Value>)
    requires Published(part) && forall i :: i in items ==> HasType(i, part)
    ensures FromMany(part, ToEach(items)) == Some(items)
    decreases part, 1, items
  {
    hide FromWire, ToWire, HasType, Published;
    if items != [] {
      assert items[0] in items && forall i :: i in items[1..] ==> i in items;
      RoundTrip(part, items[0]);
      ManyRoundTrip(part, items[1..]);
      assert items == [items[0]] + items[1..];
      assert ToEach(items)[1..] == ToEach(items[1..]);
    }
  }

  /** What is written under a record's names is known, and is found under each of them. */
  lemma {:induction false} ZipNames(fields: seq<Field>, values: seq<Value>)
    requires |fields| == |values| && forall i, j :: 0 <= i < j < |fields| ==> fields[i].name != fields[j].name
    ensures var members := Zip(Names(fields), ToEach(values));
            && (forall m :: m in members ==> Known(fields, m.0))
            && (forall k :: 0 <= k < |fields| ==> Lookup(members, fields[k].name) == Some(ToWire(values[k])))
  {
    if fields != [] {
      ZipNames(fields[1..], values[1..]);
      var members, rest := Zip(Names(fields), ToEach(values)), Zip(Names(fields[1..]), ToEach(values[1..]));
      assert members == [(fields[0].name, ToWire(values[0]))] + rest;
      assert forall f :: f in fields[1..] ==> f in fields;
      assert fields[0] in fields;
      forall k | 0 <= k < |fields| ensures Lookup(members, fields[k].name) == Some(ToWire(values[k])) {
        if k > 0 { assert fields[k] == fields[1..][k - 1] && values[k] == values[1..][k - 1]; }
      }
    }
  }

  lemma {:induction false} FieldsRoundTrip(fields: seq<Field>, values: seq<Value>, members: seq<(string, Json)>)
    requires |fields| == |values| && (forall f :: f in fields ==> Published(f.kind))
    requires forall k :: 0 <= k < |fields| ==> HasType(values[k], fields[k].kind)
    requires forall k :: 0 <= k < |fields| ==> Lookup(members, fields[k].name) == Some(ToWire(values[k]))
    ensures FromFields(fields, members) == Some(values)
    decreases fields, 0
  {
    hide FromWire, ToWire, HasType, Published;
    if fields != [] {
      RoundTrip(fields[0].kind, values[0]);
      FieldsRoundTrip(fields[1..], values[1..], members);
      assert values == [values[0]] + values[1..];
    }
  }

  // ----- what can be read -----

  const CHANNEL_KINDS: seq<Type> := [
    Int, Enum([JStr("20"), JStr("40"), JStr("80"), JStr("160"), JStr("80+80"), JStr("320")]),
    Union([Int, Null]), Union([Int, Null]), Union([Int, Null]), Str, Union([Int, Null]), Bool, Bool, Bool,
      Union([Str, Null])]

  /** Defaults have their field's type, and the channel constructor is given its own fields. */
  ghost predicate Declared(t: Type)
    decreases t
  {
    match t
    case Union(options) => forall o :: o in options ==> Declared(o)
    case Tuple(parts) => forall p :: p in parts ==> Declared(p)
    case Many(part) => Declared(part)
    case Record(fields, maker) =>
      && (forall f :: f in fields ==> Declared(f.kind) && (f.default.Some? ==> HasType(f.default.value, f.kind)))
      && (maker.ChannelDefinition? ==> ChannelFields(fields))
    case _ => true
  }

  ghost predicate AllTyped(fields: seq<Field>, values: seq<Value>) {
    |fields| == |values| && forall k :: 0 <= k < |fields| ==> HasType(values[k], fields[k].kind)
  }

  lemma IntIsOptional(v: Value)
    requires v.VInt?
    ensures HasType(v, Union([Int, Null]))
  {
    var options := [Int, Null];
    assert options[0] in options && HasType(v, options[0]);
  }

  lemma SetTyped(values: seq<Value>, kinds: seq<Type>, k: nat, v: Value)
    requires |values| == |kinds| && k < |kinds| && HasType(v, kinds[k])
    requires forall i :: 0 <= i < |kinds| ==> HasType(values[i], kinds[i])
    ensures forall i :: 0 <= i < |kinds| ==> HasType(values[k := v][i], kinds[i])
  {
    hide HasType;
  }

  lemma ChannelKinds()
    ensures |CHANNEL_KINDS| == CHANNEL_FIELDS && CHANNEL_KINDS[2] == Union([Int, Null])
    ensures CHANNEL_KINDS[7] == Bool && CHANNEL_KINDS[9] == Bool
    ensures HasType(VBool(false), Bool) && HasType(VBool(true), Bool)
  {}

  lemma ChannelTyped(values: seq<Value>)
    requires |values| == |CHANNEL_KINDS| && MakeChannel(values).Some?
    requires forall k :: 0 <= k < |values| ==> HasType(values[k], CHANNEL_KINDS[k])
    ensures forall k :: 0 <= k < |values| ==> HasType(MakeChannel(values).value[k], CHANNEL_KINDS[k])
  {
    ChannelKinds();
    IntIsOptional(values[0]);
    hide HasType, CHANNEL_KINDS;
    SetTyped(values, CHANNEL_KINDS, 2, values[0]);
    var centred := if values[2] == VNull then values[2 := values[0]] else values;
    SetTyped(centred, CHANNEL_KINDS, 7, VBool(false));
    SetTyped(centred[7 := VBool(false)], CHANNEL_KINDS, 9, VBool(true));
  }

  ghost predicate ChannelFields(fields: seq<Field>) {
    |fields| == CHANNEL_FIELDS && forall k :: 0 <= k < |fields| ==> fields[k].kind == CHANNEL_KINDS[k]
  }

  lemma ChannelMade(fields: seq<Field>, values: seq<Value>)
    requires ChannelFields(fields) && AllTyped(fields, values) && MakeChannel(values).Some?
    ensures AllTyped(fields, MakeChannel(values).value)
  {
    ChannelKinds();
    MakeIdempotent(ChannelDefinition, values);
    hide HasType, CHANNEL_KINDS, MakeChannel;
    ChannelTyped(values);
  }

  lemma MadeTyped(fields: seq<Field>, maker: Maker, values: seq<Value>)
    requires maker.ChannelDefinition? ==> ChannelFields(fields)
    requires AllTyped(fields, values) && Make(maker, values).Some?
    ensures AllTyped(fields, Make(maker, values).value)
  {
    hide HasType, MakeChannel, AllTyped, ChannelFields;
    if maker.ChannelDefinition? { ChannelMade(fields, values); }
  }

  /** Only values of the declared type come out of the wire. */
  lemma {:induction false} ReadIsTyped(t: Type, j: Json)
    requires Declared(t) && FromWire(t, j).Some?
    ensures HasType(FromWire(t, j).value, t)
    decreases t, 0
  {
    match t
    case Union(options) => FirstIsTyped(options, j);
    case Tuple(parts) => EachIsTyped(parts, j.items);
    case Many(part) => ManyIsTyped(part, j.items);
    case Record(fields, maker) =>
      FieldsAreTyped(fields, j.members);
      var values := FromFields(fields, j.members).value;
      MadeTyped(fields, maker, values);
      MakeIdempotent(maker, values);
    case _ =>
  }

  lemma {:induction false} FirstIsTyped(options: seq<Type>, j: Json)
    requires (forall o :: o in options ==> Declared(o)) && FromFirst(options, j).Some?
    ensures exists o :: o in options && HasType(FromFirst(options, j).value, o)
    decreases options, 0
  {
    hide FromWire, HasType, Declared;
    assert options[0] in options && forall o :: o in options[1..] ==> o in options;
    if FromWire(options[0], j).Some? {
      ReadIsTyped(options[0], j);
    } else {
      FirstIsTyped(options[1..], j);
    }
  }

  lemma {:induction false} EachIsTyped(parts: seq<Type>, items: seq<Json>)
    requires |parts| == |items| && (forall p :: p in parts ==> Declared(p)) && FromEach(parts, items).Some?
    ensures forall k :: 0 <= k < |parts| ==> HasType(FromEach(parts, items).value[k], parts[k])
    decreases parts, 0
  {
    hide FromWire, HasType, Declared;
    if parts != [] {
      assert parts[0] in parts && forall p :: p in parts[1..] ==> p in parts;
      ReadIsTyped(parts[0], items[0]);
      EachIsTyped(parts[1..], items[1..]);
      assert forall k :: 1 <= k < |parts| ==> parts[k] == parts[1..][k - 1];
    }
  }

  lemma {:induction false} ManyIsTyped(part: Type, items: seq<Json>)
    requires Declared(part) && FromMany(part, items).Some?
    ensures forall i :: i in FromMany(part, items).value ==> HasType(i, part)
    decreases part, 1, items
  {
    hide FromWire, HasType, Declared;
    if items != [] {
      ReadIsTyped(part, items[0]);
      ManyIsTyped(part, items[1..]);
    }
  }

  lemma {:induction false} FieldsAreTyped(fields: seq<Field>, members: seq<(string, Json)>)
    requires forall f :: f in fields ==> Declared(f.kind) && (f.default.Some? ==> HasType(f.default.value, f.kind))
    requires FromFields(fields, members).Some?
    ensures AllTyped(fields, FromFields(fields, members).value)
    decreases fields, 0
  {
    hide FromWire, HasType, Declared;
    if fields != [] {
      assert fields[0] in fields && forall f :: f in fields[1..] ==> f in fields;
      var j := Lookup(members, fields[0].name);
      if j.Some? { ReadIsTyped(fields[0].kind, j.value); }
      FieldsAreTyped(fields[1..], members);
      assert forall k :: 1 <= k < |fields| ==> fields[k] == fields[1..][k - 1];
    }
  }

  /** Whatever was read, even with members missing or a constructor that filled them in, is written
      and read back unchanged. */
  lemma ReadRoundTrips(t: Type, j: Json)
    requires Published(t) && Declared(t) && FromWire(t, j).Some?
    ensures FromWire(t, ToWire(FromWire(t, j).value)) == FromWire(t, j)
  {
    ReadIsTyped(t, j);
    RoundTrip(t, FromWire(t, j).value);
  }

  /** Outside the published shape reading need not give the value back: here a union of two types
      that both accept one wire form is read as the first. */
  lemma OverlappingUnionFails()
    ensures var t, v := Union([Float, Int]), VInt(1);
            HasType(v, t) && FromWire(t, ToWire(v)) == Some(VFloat(1.0))
  {
    var options := [Float, Int];
    assert options[1] in options && HasType(VInt(1), options[1]);
  }
}
