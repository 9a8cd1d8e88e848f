/** JSON values as the library hands them out and takes them in, and the document object model of
    the Oracle client that they are converted from and to (support/dpiJson.c): what the two
    conversions compute. */
module JsonTree {
  import opened Common

  type Bytes = seq<nat>

  // --------------------------------------------------------------------------------------
  // Native nodes
  // --------------------------------------------------------------------------------------

  datatype OracleType =
    | TypeNone | Varchar | Raw | JsonId | Number | NativeDouble | NativeFloat | Date | Timestamp
    | IntervalDS | IntervalYM | Boolean | Vector | JsonArray | JsonObject

  /** Date and time, with nanoseconds and the offsets of the time zone. */
  datatype DateTime = DateTime(
    year: int, month: int, day: int, hour: int, minute: int, second: int, fsecond: nat, tzHour: int, tzMinute: int)

  datatype DaySecond = DaySecond(days: int, hours: int, minutes: int, seconds: int, fseconds: int)

  datatype YearMonth = YearMonth(years: int, months: int)

  datatype Value =
    | NullValue
    | BooleanValue(truth: bool)
    | BytesValue(bytes: Bytes)
    | DoubleValue(double: real)
    | FloatValue(float: real)
    | IntegerValue(integer: int)
    | TimestampValue(timestamp: DateTime)
    | IntervalDSValue(ds: DaySecond)
    | IntervalYMValue(ym: YearMonth)

  datatype Node =
    | Scalar(oracleType: OracleType, value: Value)
    | Array(elements: seq<Node>)
    | Object(fields: seq<NodeField>)

  datatype NodeField = NodeField(name: Bytes, node: Node)

  // --------------------------------------------------------------------------------------
  // The document object model
  // --------------------------------------------------------------------------------------

  datatype DomValue =
    | DomString(bytes: Bytes)
    | DomBinary(bytes: Bytes)
    | DomId(bytes: Bytes)
    | DomFloat(float: real)
    | DomDouble(double: real)
    | DomNumber(number: seq<int>)
    | DomDate(timestamp: DateTime)
    | DomTimestamp(timestamp: DateTime)
    | DomDaySecond(ds: DaySecond)
    | DomYearMonth(ym: YearMonth)
    | DomTruth(truth: bool)
    | DomNull
    | DomVector(bytes: Bytes)
    | DomUnknown

  datatype Dom =
    | DomScalar(scalar: DomValue)
    | DomArray(items: seq<Dom>)
    | DomObject(members: seq<DomField>)
    | DomOther

  datatype DomField = DomField(name: Bytes, dom: Dom)

  /** The options of a conversion, and the conversions of single values: between numbers and text,
      which the library does itself, and those that the Oracle client performs. The client also says which
      values a timestamp or interval takes. */
  datatype Env = Env(
    numberToText: seq<int> -> Option<Bytes>,
    numberFromText: Bytes -> Option<seq<int>>,
    numberAsString: bool, dateAsDouble: bool, useJsonId: bool, descriptorsOk: bool,
    takesTimestamp: DateTime -> bool, takesDaySecond: DaySecond -> bool, takesYearMonth: YearMonth -> bool,
    numberToDouble: seq<int> -> Option<real>,
    numberFromDouble: real -> Option<seq<int>>,
    numberFromInteger: int -> Option<seq<int>>,
    timestampToDouble: DateTime -> Option<real>,
    timestampFromDouble: real -> Option<DateTime>)

  /** What a date keeps of a timestamp. */
  function WholeSeconds(t: DateTime): DateTime {
    t.(fsecond := 0, tzHour := 0, tzMinute := 0)
  }

  /** What a timestamp of a JSON value keeps of one. */
  function WithoutZone(t: DateTime): DateTime {
    t.(tzHour := 0, tzMinute := 0)
  }

  // --------------------------------------------------------------------------------------
  // From the document to native nodes
  // --------------------------------------------------------------------------------------

  function ReadNumber(env: Env, bytes: seq<int>): Option<Node> {
    if env.numberAsString then
      match env.numberToText(bytes)
      case None => None
      case Some(t) => Some(Scalar(Number, BytesValue(t)))
    else
      match env.numberToDouble(bytes)
      case None => None
      case Some(x) => Some(Scalar(Number, DoubleValue(x)))
  }

  /** As a double: the milliseconds of the whole seconds, and those of the fraction. */
  function ReadTimestamp(env: Env, kind: OracleType, t: DateTime): Option<Node> {
    if env.dateAsDouble then
      match env.timestampToDouble(WholeSeconds(t))
      case None => None
      case Some(x) => Some(Scalar(kind, DoubleValue(x + (t.fsecond / 1000000) as real)))
    else Some(Scalar(kind, TimestampValue(t)))
  }

  function ReadScalar(env: Env, v: DomValue): Option<Node> {
    match v
    case DomString(b) => Some(Scalar(Varchar, BytesValue(b)))
    case DomBinary(b) => Some(Scalar(Raw, BytesValue(b)))
    case DomId(b) => Some(Scalar(if env.useJsonId then JsonId else Raw, BytesValue(b)))
    case DomFloat(x) => Some(Scalar(Number, FloatValue(x)))
    case DomDouble(x) => Some(Scalar(Number, DoubleValue(x)))
    case DomNumber(bytes) => ReadNumber(env, bytes)
    case DomDate(t) => ReadTimestamp(env, Date, t)
    case DomTimestamp(t) => ReadTimestamp(env, Timestamp, t)
    case DomDaySecond(ds) => Some(Scalar(IntervalDS, IntervalDSValue(ds)))
    case DomYearMonth(ym) => Some(Scalar(IntervalYM, IntervalYMValue(ym)))
    case DomTruth(b) => Some(Scalar(Boolean, BooleanValue(b)))
    case DomNull => Some(Scalar(TypeNone, NullValue))
    case DomVector(b) => Some(Scalar(Vector, BytesValue(b)))
    case DomUnknown => None
  }

  /** Plain conversion, one element after the other. */
  function ReadNode(env: Env, dom: Dom): Option<Node>
    decreases dom, 1
  {
    match dom
    case DomScalar(v) => ReadScalar(env, v)
    case DomArray(items) =>
      (match ReadItems(env, items)
       case None => None
       case Some(nodes) => Some(Array(nodes)))
    case DomObject(members) =>
      (match ReadMembers(env, members)
       case None => None
       case Some(fields) => Some(Object(fields)))
    case DomOther => None
  }

  function ReadItems(env: Env, items: seq<Dom>): (r: Option<seq<Node>>)
    ensures r.Some? ==> |r.value| == |items|
    decreases items, 0
  {
    if items == [] then Some([])
    else
      match (ReadNode(env, items[0]), ReadItems(env, items[1..]))
      case (Some(n), Some(ns)) => Some([n] + ns)
      case _ => None
  }

  function ReadMembers(env: Env, members: seq<DomField>): (r: Option<seq<NodeField>>)
    ensures r.Some? ==> |r.value| == |members|
    decreases members, 0
  {
    if members == [] then Some([])
    else
      match (ReadNode(env, members[0].dom), ReadMembers(env, members[1..]))
      case (Some(n), Some(ns)) => Some([NodeField(members[0].name, n)] + ns)
      case _ => None
  }

  // --------------------------------------------------------------------------------------
  // From native nodes to the document
  // --------------------------------------------------------------------------------------

  function StoreNumber(bytes: Option<seq<int>>): Option<DomValue> {
    match bytes
    case None => None
    case Some(b) => Some(DomNumber(b))
  }

  function StoreDate(t: Option<DateTime>): Option<DomValue> {
    match t
    case None => None
    case Some(x) => Some(DomDate(WholeSeconds(x)))
  }

  function StoreTimestamp(t: Option<DateTime>): Option<DomValue> {
    match t
    case None => None
    case Some(x) => Some(DomTimestamp(WithoutZone(x)))
  }

  /** The scalar value that the document holds after a native value has been stored; nothing when
      the types do not go together or a conversion fails. */
  function WriteScalar(env: Env, kind: OracleType, v: Value): Option<DomValue> {
    match (kind, v)
    case (Number, DoubleValue(x)) => StoreNumber(env.numberFromDouble(x))
    case (Number, IntegerValue(x)) => StoreNumber(env.numberFromInteger(x))
    case (Number, BytesValue(t)) => StoreNumber(env.numberFromText(t))
    case (NativeDouble, DoubleValue(x)) => Some(DomDouble(x))
    case (NativeFloat, FloatValue(x)) => Some(DomFloat(x))
    case (Raw, BytesValue(b)) => Some(DomBinary(b))
    case (JsonId, BytesValue(b)) => Some(DomId(b))
    case (Varchar, BytesValue(b)) => Some(DomString(b))
    case (Date, TimestampValue(t)) => StoreDate(Some(t))
    case (Date, DoubleValue(x)) => StoreDate(env.timestampFromDouble(x))
    case (Timestamp, TimestampValue(t)) =>
      if env.descriptorsOk && env.takesTimestamp(t) then StoreTimestamp(Some(t)) else None
    case (Timestamp, DoubleValue(x)) =>
      if env.descriptorsOk then StoreTimestamp(env.timestampFromDouble(x)) else None
    case (IntervalDS, IntervalDSValue(ds)) =>
      if env.descriptorsOk && env.takesDaySecond(ds) then Some(DomDaySecond(ds)) else None
    case (IntervalYM, IntervalYMValue(ym)) =>
      if env.descriptorsOk && env.takesYearMonth(ym) then Some(DomYearMonth(ym)) else None
    case (Boolean, BooleanValue(b)) => Some(DomTruth(b))
    case (Vector, BytesValue(b)) => Some(DomVector(b))
    case (TypeNone, NullValue) => Some(DomNull)
    case _ => None
  }

  /** The name that a field gets in the document: its length goes through sixteen bits. */
  function StoredName(name: Bytes): Bytes {
    name[..|name| % 0x1_0000]
  }

  /** Setting a field that is there already replaces its value. */
  function Put(members: seq<DomField>, name: Bytes, dom: Dom): seq<DomField> {
    if members == [] then [DomField(name, dom)]
    else if members[0].name == name then [DomField(name, dom)] + members[1..]
    else [members[0]] + Put(members[1..], name, dom)
  }

  function WriteNode(env: Env, node: Node): Option<Dom>
    decreases node, 1
  {
    match node
    case Scalar(kind, v) =>
      (match WriteScalar(env, kind, v)
       case None => None
       case Some(x) => Some(DomScalar(x)))
    case Array(elements) =>
      (match WriteItems(env, elements)
       case None => None
       case Some(items) => Some(DomArray(items)))
    case Object(fields) =>
      (match WriteMembers(env, fields)
       case None => None
       case Some(members) => Some(DomObject(members)))
  }

  function WriteItems(env: Env, elements: seq<Node>): Option<seq<Dom>>
    decreases elements, 0
  {
    if elements == [] then Some([])
    else
      var n := |elements| - 1;
      match (WriteItems(env, elements[..n]), WriteNode(env, elements[n]))
      case (Some(items), Some(d)) => Some(items + [d])
      case _ => None
  }

  function WriteMembers(env: Env, fields: seq<NodeField>): Option<seq<DomField>>
    decreases fields, 0
  {
    if fields == [] then Some([])
    else
      var n := |fields| - 1;
      match (WriteMembers(env, fields[..n]), WriteNode(env, fields[n].node))
      case (Some(members), Some(d)) => Some(Put(members, StoredName(fields[n].name), d))
      case _ => None
  }

  // --------------------------------------------------------------------------------------
  // When a conversion fails
  // --------------------------------------------------------------------------------------

  /** A date or time can be read as it is, or its whole seconds have a double. */
  predicate DateReads(env: Env, t: DateTime) {
    env.dateAsDouble ==> env.timestampToDouble(WholeSeconds(t)).Some?
  }

  predicate NumberReads(env: Env, bytes: seq<int>) {
    if env.numberAsString then env.numberToText(bytes).Some? else env.numberToDouble(bytes).Some?
  }

  /** A scalar that can be read: its type is known, and the conversion that it needs works. */
  predicate ScalarReads(env: Env, v: DomValue) {
    && v != DomUnknown
    && (v.DomNumber? ==> NumberReads(env, v.number))
    && (v.DomDate? || v.DomTimestamp? ==> DateReads(env, v.timestamp))
  }

  /** The nodes of a document that are no containers. */
  function DomLeaves(dom: Dom): set<Dom>
    decreases dom, 1
  {
    match dom
    case DomScalar(_) => {dom}
    case DomOther => {dom}
    case DomArray(items) => ItemLeaves(items)
    case DomObject(members) => MemberLeaves(members)
  }

  function ItemLeaves(items: seq<Dom>): set<Dom>
    decreases items, 0
  {
    if items == [] then {} else DomLeaves(items[0]) + ItemLeaves(items[1..])
  }

  function MemberLeaves(members: seq<DomField>): set<Dom>
    decreases members, 0
  {
    if members == [] then {} else DomLeaves(members[0].dom) + MemberLeaves(members[1..])
  }

  predicate LeafReads(env: Env, leaf: Dom) {
    leaf.DomScalar? && ScalarReads(env, leaf.scalar)
  }

  /** Reading fails exactly if somewhere in the document there is a node of an unknown kind, a scalar of an
      unknown type, or one whose conversion fails. */
  lemma {:induction false} ReadExact(env: Env, dom: Dom)
    ensures ReadNode(env, dom).Some? <==> forall leaf :: leaf in DomLeaves(dom) ==> LeafReads(env, leaf)
    decreases dom, 1
  {
    match dom
    case DomScalar(v) => assert DomLeaves(dom) == {dom} && (ReadNode(env, dom).Some? <==> LeafReads(env, dom));
    case DomOther => assert DomLeaves(dom) == {dom} && !LeafReads(env, dom);
    case DomArray(items) => ItemsExact(env, items);
    case DomObject(members) => MembersExact(env, members);
  }

  lemma {:induction false} ItemsExact(env: Env, items: seq<Dom>)
    ensures ReadItems(env, items).Some? <==> forall leaf :: leaf in ItemLeaves(items) ==> LeafReads(env, leaf)
    decreases items, 0
  {
    if items != [] {
      ReadExact(env, items[0]);
      ItemsExact(env, items[1..]);
    }
  }

  lemma {:induction false} MembersExact(env: Env, members: seq<DomField>)
    ensures ReadMembers(env, members).Some? <==> forall leaf :: leaf in MemberLeaves(members) ==> LeafReads(env, leaf)
    decreases members, 0
  {
    if members != [] {
      ReadExact(env, members[0].dom);
      MembersExact(env, members[1..]);
    }
  }

  /** A scalar that can be stored: the native type goes with the Oracle type, and the client takes the
      value. */
  predicate ScalarWrites(env: Env, kind: OracleType, v: Value) {
    match v
    case NullValue => kind == TypeNone
    case BooleanValue(_) => kind == Boolean
    case BytesValue(t) =>
      kind in {Varchar, Raw, JsonId, Vector} || (kind == Number && env.numberFromText(t).Some?)
    case DoubleValue(x) =>
      || kind == NativeDouble
      || (kind == Number && env.numberFromDouble(x).Some?)
      || (kind == Date && env.timestampFromDouble(x).Some?)
      || (kind == Timestamp && env.descriptorsOk && env.timestampFromDouble(x).Some?)
    case FloatValue(_) => kind == NativeFloat
    case IntegerValue(x) => kind == Number && env.numberFromInteger(x).Some?
    case TimestampValue(t) => kind == Date || (kind == Timestamp && env.descriptorsOk && env.takesTimestamp(t))
    case IntervalDSValue(ds) => kind == IntervalDS && env.descriptorsOk && env.takesDaySecond(ds)
    case IntervalYMValue(ym) => kind == IntervalYM && env.descriptorsOk && env.takesYearMonth(ym)
  }

  /** The scalars of a native tree. */
  function Leaves(node: Node): set<Node>
    decreases node, 1
  {
    match node
    case Scalar(_, _) => {node}
    case Array(elements) => ElementLeaves(elements)
    case Object(fields) => FieldLeaves(fields)
  }

  function ElementLeaves(elements: seq<Node>): set<Node>
    decreases elements, 0
  {
    if elements == [] then {} else Leaves(elements[|elements| - 1]) + ElementLeaves(elements[..|elements| - 1])
  }

  function FieldLeaves(fields: seq<NodeField>): set<Node>
    decreases fields, 0
  {
    if fields == [] then {} else Leaves(fields[|fields| - 1].node) + FieldLeaves(fields[..|fields| - 1])
  }

  predicate LeafWrites(env: Env, leaf: Node) {
    leaf.Scalar? && ScalarWrites(env, leaf.oracleType, leaf.value)
  }

  /** Storing fails exactly if some scalar of the tree cannot be stored. */
  lemma {:induction false} WriteExact(env: Env, node: Node)
    ensures WriteNode(env, node).Some? <==> forall leaf :: leaf in Leaves(node) ==> LeafWrites(env, leaf)
    decreases node, 1
  {
    match node
    case Scalar(kind, v) => assert Leaves(node) == {node} && (WriteNode(env, node).Some? <==> LeafWrites(env, node));
    case Array(elements) => ElementsExact(env, elements);
    case Object(fields) => FieldsExact(env, fields);
  }

  lemma {:induction false} ElementsExact(env: Env, elements: seq<Node>)
    ensures WriteItems(env, elements).Some? <==> forall leaf :: leaf in ElementLeaves(elements) ==> LeafWrites(env, leaf)
    decreases elements, 0
  {
    if elements != [] {
      WriteExact(env, elements[|elements| - 1]);
      ElementsExact(env, elements[..|elements| - 1]);
    }
  }

  lemma {:induction false} FieldsExact(env: Env, fields: seq<NodeField>)
    ensures WriteMembers(env, fields).Some? <==> forall leaf :: leaf in FieldLeaves(fields) ==> LeafWrites(env, leaf)
    decreases fields, 0
  {
    if fields != [] {
      WriteExact(env, fields[|fields| - 1].node);
      FieldsExact(env, fields[..|fields| - 1]);
    }
  }

  // --------------------------------------------------------------------------------------
  // What comes back
  // --------------------------------------------------------------------------------------

  /** Storing a scalar and reading it: the value that comes back and its type. Binary numbers become
      numbers, ids may become raw bytes, dates lose their fraction, and timestamps their time zone. */
  ghost function ScalarBack(env: Env, kind: OracleType, v: Value): Option<Node> {
    match (kind, v)
    case (NativeDouble, _) => Some(Scalar(Number, v))
    case (NativeFloat, _) => Some(Scalar(Number, v))
    case (JsonId, _) => Some(Scalar(if env.useJsonId then JsonId else Raw, v))
    case (Number, BytesValue(t)) => NumberBack(env, env.numberFromText(t))
    case (Number, DoubleValue(x)) => NumberBack(env, env.numberFromDouble(x))
    case (Number, IntegerValue(x)) => NumberBack(env, env.numberFromInteger(x))
    case (Date, TimestampValue(t)) => DateBack(env, Date, Some(t.(fsecond := 0, tzHour := 0, tzMinute := 0)))
    case (Date, DoubleValue(x)) =>
      var t := env.timestampFromDouble(x);
      if t == None then None else DateBack(env, Date, Some(t.value.(fsecond := 0, tzHour := 0, tzMinute := 0)))
    case (Timestamp, TimestampValue(t)) => DateBack(env, Timestamp, Some(t.(tzHour := 0, tzMinute := 0)))
    case (Timestamp, DoubleValue(x)) =>
      var t := env.timestampFromDouble(x);
      if t == None then None else DateBack(env, Timestamp, Some(t.value.(tzHour := 0, tzMinute := 0)))
    case _ => Some(Scalar(kind, v))
  }

  ghost function NumberBack(env: Env, bytes: Option<seq<int>>): Option<Node> {
    if bytes == None then None
    else if env.numberAsString then
      var t := env.numberToText(bytes.value);
      if t == None then None else Some(Scalar(Number, BytesValue(t.value)))
    else
      var x := env.numberToDouble(bytes.value);
      if x == None then None else Some(Scalar(Number, DoubleValue(x.value)))
  }

  ghost function DateBack(env: Env, kind: OracleType, t: Option<DateTime>): Option<Node> {
    if t == None then None
    else if env.dateAsDouble then
      var x := env.timestampToDouble(t.value.(fsecond := 0, tzHour := 0, tzMinute := 0));
      if x == None then None else Some(Scalar(kind, DoubleValue(x.value + (t.value.fsecond / 1000000) as real)))
    else Some(Scalar(kind, TimestampValue(t.value)))
  }

  /** Every scalar that can be stored, and what reading it then gives. */
  lemma ScalarStored(env: Env, kind: OracleType, v: Value)
    ensures WriteScalar(env, kind, v).Some? <==> ScalarWrites(env, kind, v)
    ensures ScalarWrites(env, kind, v) ==> ReadScalar(env, WriteScalar(env, kind, v).value) == ScalarBack(env, kind, v)
  {
  }

  /** Binary numbers keep their value under the type of numbers. */
  lemma BinaryNumbers(env: Env, x: real)
    ensures WriteScalar(env, NativeDouble, DoubleValue(x)).Some? && WriteScalar(env, NativeFloat, FloatValue(x)).Some?
    ensures ReadScalar(env, WriteScalar(env, NativeDouble, DoubleValue(x)).value) == Some(Scalar(Number, DoubleValue(x)))
    ensures ReadScalar(env, WriteScalar(env, NativeFloat, FloatValue(x)).value) == Some(Scalar(Number, FloatValue(x)))
  {
  }

  /** The text of a number that is the text of its own bytes. */
  ghost predicate TextReturns(env: Env, t: Bytes) {
    var bytes := env.numberFromText(t);
    bytes.Some? && env.numberToText(bytes.value) == Some(t)
  }

  ghost predicate DoubleReturns(env: Env, x: real) {
    var bytes := env.numberFromDouble(x);
    bytes.Some? && env.numberToDouble(bytes.value) == Some(x)
  }

  /** The milliseconds of a date, or of a timestamp with its fraction, that are those of the date. */
  ghost predicate MillisecondsReturn(env: Env, x: real, withFraction: bool) {
    var t := env.timestampFromDouble(x);
    && t.Some? && env.timestampToDouble(WholeSeconds(t.value)).Some?
    && env.timestampToDouble(WholeSeconds(t.value)).value
       + (if withFraction then (t.value.fsecond / 1000000) as real else 0.0) == x
  }

  /** The scalars that come back as they were. */
  ghost predicate ScalarReturns(env: Env, kind: OracleType, v: Value) {
    match (kind, v)
    case (TypeNone, NullValue) => true
    case (Boolean, BooleanValue(_)) => true
    case (Varchar, BytesValue(_)) => true
    case (Raw, BytesValue(_)) => true
    case (Vector, BytesValue(_)) => true
    case (JsonId, BytesValue(_)) => env.useJsonId
    case (IntervalDS, IntervalDSValue(ds)) => env.descriptorsOk && env.takesDaySecond(ds)
    case (IntervalYM, IntervalYMValue(ym)) => env.descriptorsOk && env.takesYearMonth(ym)
    case (Number, BytesValue(t)) => env.numberAsString && TextReturns(env, t)
    case (Number, DoubleValue(x)) => !env.numberAsString && DoubleReturns(env, x)
    case (Date, TimestampValue(t)) => !env.dateAsDouble && t.fsecond == t.tzHour == t.tzMinute == 0
    case (Date, DoubleValue(x)) => env.dateAsDouble && MillisecondsReturn(env, x, false)
    case (Timestamp, TimestampValue(t)) =>
      !env.dateAsDouble && env.descriptorsOk && env.takesTimestamp(t) && t.tzHour == t.tzMinute == 0
    case (Timestamp, DoubleValue(x)) => env.dateAsDouble && env.descriptorsOk && MillisecondsReturn(env, x, true)
    case _ => false
  }

  ghost predicate DistinctNames(fields: seq<NodeField>) {
    forall i, j :: 0 <= i < j < |fields| ==> fields[i].name != fields[j].name
  }

  ghost predicate ShortNames(fields: seq<NodeField>) {
    forall f :: f in fields ==> |f.name| < 0x1_0000
  }

  /** Trees of the scalars above, with distinct field names whose lengths fit sixteen bits. */
  ghost predicate Returns(env: Env, node: Node)
    decreases node
  {
    match node
    case Scalar(kind, v) => ScalarReturns(env, kind, v)
    case Array(elements) => forall e :: e in elements ==> Returns(env, e)
    case Object(fields) => DistinctNames(fields) && ShortNames(fields) && forall f :: f in fields ==> Returns(env, f.node)
  }

  /** A scalar comes back as it was exactly if it is one of those. */
  lemma ScalarRoundTrip(env: Env, kind: OracleType, v: Value)
    ensures ScalarReturns(env, kind, v)
       <==> WriteScalar(env, kind, v).Some? && ReadScalar(env, WriteScalar(env, kind, v).value) == Some(Scalar(kind, v))
  {
  }

  /** A JSON id comes back as one exactly if the context asks for it. */
  lemma IdRoundTrip(env: Env, b: Bytes)
    ensures WriteScalar(env, JsonId, BytesValue(b)).Some?
    ensures ReadScalar(env, WriteScalar(env, JsonId, BytesValue(b)).value) == Some(Scalar(JsonId, BytesValue(b))) <==> env.useJsonId
  {
  }

  lemma {:induction false} ReadAppend(env: Env, items: seq<Dom>, d: Dom)
    requires ReadItems(env, items).Some? && ReadNode(env, d).Some?
    ensures ReadItems(env, items + [d]) == Some(ReadItems(env, items).value + [ReadNode(env, d).value])
  {
    if items == [] {
      var x := ReadNode(env, d).value;
      assert items + [d] == [d] && [d][1..] == [];
      assert [x] + [] == [] + [x] == [x];
    } else {
      ReadAppend(env, items[1..], d);
      assert (items + [d])[1..] == items[1..] + [d] && (items + [d])[0] == items[0];
      var n, ns, x := ReadNode(env, items[0]).value, ReadItems(env, items[1..]).value, ReadNode(env, d).value;
      assert [n] + (ns + [x]) == [n] + ns + [x];
    }
  }

  lemma {:induction false} ReadAppendMember(env: Env, members: seq<DomField>, f: DomField)
    requires ReadMembers(env, members).Some? && ReadNode(env, f.dom).Some?
    ensures ReadMembers(env, members + [f])
         == Some(ReadMembers(env, members).value + [NodeField(f.name, ReadNode(env, f.dom).value)])
  {
    if members == [] {
      var x := NodeField(f.name, ReadNode(env, f.dom).value);
      assert members + [f] == [f] && [f][1..] == [];
      assert [x] + [] == [] + [x] == [x];
    } else {
      ReadAppendMember(env, members[1..], f);
      assert (members + [f])[1..] == members[1..] + [f] && (members + [f])[0] == members[0];
      var m := members[0];
      var n, ns := NodeField(m.name, ReadNode(env, m.dom).value), ReadMembers(env, members[1..]).value;
      var x := NodeField(f.name, ReadNode(env, f.dom).value);
      assert [n] + (ns + [x]) == [n] + ns + [x];
    }
  }

  lemma {:induction false} PutNew(members: seq<DomField>, name: Bytes, dom: Dom)
    requires forall m :: m in members ==> m.name != name
    ensures Put(members, name, dom) == members + [DomField(name, dom)]
  {
    if members != [] {
      PutNew(members[1..], name, dom);
    }
  }

  /** Field by field, the members have the names of the fields and their values as they are stored. */
  ghost predicate InOrder(env: Env, fields: seq<NodeField>, members: seq<DomField>) {
    |members| == |fields| &&
    forall i :: 0 <= i < |fields| ==> members[i].name == fields[i].name && WriteNode(env, fields[i].node) == Some(members[i].dom)
  }

  lemma OneMoreInOrder(env: Env, fields: seq<NodeField>, members: seq<DomField>, d: Dom)
    requires fields != [] && InOrder(env, fields[..|fields| - 1], members)
    requires WriteNode(env, fields[|fields| - 1].node) == Some(d)
    ensures InOrder(env, fields, members + [DomField(fields[|fields| - 1].name, d)])
  {
    var n, after := |fields| - 1, members + [DomField(fields[|fields| - 1].name, d)];
    forall i | 0 <= i < |fields|
      ensures after[i].name == fields[i].name && WriteNode(env, fields[i].node) == Some(after[i].dom)
    {
      if i < n {
        assert fields[..n][i] == fields[i] && after[i] == members[i];
      }
    }
  }

  lemma NewName(env: Env, fields: seq<NodeField>, members: seq<DomField>)
    requires fields != [] && DistinctNames(fields) && InOrder(env, fields[..|fields| - 1], members)
    ensures forall m :: m in members ==> m.name != fields[|fields| - 1].name
  {
    var n := |fields| - 1;
    forall m | m in members
      ensures m.name != fields[n].name
    {
      var i :| 0 <= i < |members| && members[i] == m;
      assert m.name == fields[..n][i].name == fields[i].name;
    }
  }

  /** Fields with distinct names are stored one behind the other. */
  lemma {:induction false} MembersInOrder(env: Env, fields: seq<NodeField>)
    requires DistinctNames(fields) && WriteMembers(env, fields).Some?
    requires ShortNames(fields)
    ensures InOrder(env, fields, WriteMembers(env, fields).value)
  {
    if fields != [] {
      var f, members := fields[|fields| - 1], WriteMembers(env, fields[..|fields| - 1]).value;
      MembersInOrder(env, fields[..|fields| - 1]);
      LastInOrder(env, fields, members, WriteNode(env, f.node).value);
    }
  }

  /** Storing the last field puts it behind the others. */
  lemma LastInOrder(env: Env, fields: seq<NodeField>, members: seq<DomField>, d: Dom)
    requires fields != [] && DistinctNames(fields) && |fields[|fields| - 1].name| < 0x1_0000
    requires InOrder(env, fields[..|fields| - 1], members) && WriteNode(env, fields[|fields| - 1].node) == Some(d)
    ensures Put(members, StoredName(fields[|fields| - 1].name), d) == members + [DomField(fields[|fields| - 1].name, d)]
    ensures InOrder(env, fields, members + [DomField(fields[|fields| - 1].name, d)])
  {
    var name := fields[|fields| - 1].name;
    NewName(env, fields, members);
    assert StoredName(name) == name;
    PutNew(members, name, d);
    OneMoreInOrder(env, fields, members, d);
  }

  // --------------------------------------------------------------------------------------
  // Trees that come back
  // --------------------------------------------------------------------------------------

  /** A tree that can be stored and read: so can its scalars, and its field names are distinct and short. */
  ghost predicate Storable(env: Env, node: Node)
    decreases node
  {
    match node
    case Scalar(kind, v) => ScalarWrites(env, kind, v) && ScalarBack(env, kind, v).Some?
    case Array(elements) => forall e :: e in elements ==> Storable(env, e)
    case Object(fields) => DistinctNames(fields) && ShortNames(fields) && forall f :: f in fields ==> Storable(env, f.node)
  }

  /** The tree that comes back: scalar by scalar. */
  ghost function Back(env: Env, node: Node): Node
    requires Storable(env, node)
    decreases node, 1
  {
    match node
    case Scalar(kind, v) => ScalarBack(env, kind, v).value
    case Array(elements) => Array(Backs(env, elements))
    case Object(fields) => Object(FieldBacks(env, fields))
  }

  ghost function Backs(env: Env, elements: seq<Node>): seq<Node>
    requires forall e :: e in elements ==> Storable(env, e)
    decreases elements, 0
  {
    if elements == [] then []
    else Backs(env, elements[..|elements| - 1]) + [Back(env, elements[|elements| - 1])]
  }

  ghost function FieldBacks(env: Env, fields: seq<NodeField>): seq<NodeField>
    requires forall f :: f in fields ==> Storable(env, f.node)
    decreases fields, 0
  {
    if fields == [] then []
    else
      var f := fields[|fields| - 1];
      FieldBacks(env, fields[..|fields| - 1]) + [NodeField(f.name, Back(env, f.node))]
  }

  /** Storing a tree and reading it. */
  lemma {:induction false} StoredAndRead(env: Env, node: Node)
    requires Storable(env, node)
    ensures WriteNode(env, node).Some?
    ensures ReadNode(env, WriteNode(env, node).value) == Some(Back(env, node))
    decreases node, 1
  {
    match node
    case Scalar(kind, v) => ScalarStored(env, kind, v);
    case Array(elements) => ItemsStored(env, elements);
    case Object(fields) => MembersStored(env, fields);
  }

  lemma {:induction false} ItemsStored(env: Env, elements: seq<Node>)
    requires forall e :: e in elements ==> Storable(env, e)
    ensures WriteItems(env, elements).Some?
    ensures ReadItems(env, WriteItems(env, elements).value)
         == Some(Backs(env, elements))
    decreases elements, 0
  {
    if elements != [] {
      var n := |elements| - 1;
      ItemsStored(env, elements[..n]);
      StoredAndRead(env, elements[n]);
      ReadAppend(env, WriteItems(env, elements[..n]).value, WriteNode(env, elements[n]).value);
    }
  }

  lemma {:induction false} MembersStored(env: Env, fields: seq<NodeField>)
    requires DistinctNames(fields) && ShortNames(fields) && forall f :: f in fields ==> Storable(env, f.node)
    ensures WriteMembers(env, fields).Some?
    ensures ReadMembers(env, WriteMembers(env, fields).value)
         == Some(FieldBacks(env, fields))
    decreases fields, 0
  {
    if fields != [] {
      var n := |fields| - 1;
      var f := fields[n];
      assert f in fields;
      MembersStored(env, fields[..n]);
      StoredAndRead(env, f.node);
      var members, d := WriteMembers(env, fields[..n]).value, WriteNode(env, f.node).value;
      MembersInOrder(env, fields[..n]);
      LastInOrder(env, fields, members, d);
      ReadAppendMember(env, members, DomField(f.name, d));
    }
  }

  lemma {:induction false} ReturnsBack(env: Env, node: Node)
    requires Returns(env, node)
    ensures Storable(env, node) && Back(env, node) == node
    decreases node, 1
  {
    match node
    case Scalar(kind, v) =>
      ScalarRoundTrip(env, kind, v);
      ScalarStored(env, kind, v);
    case Array(elements) => ElementsBack(env, elements);
    case Object(fields) => FieldsBack(env, fields);
  }

  lemma {:induction false} ElementsBack(env: Env, elements: seq<Node>)
    requires forall e :: e in elements ==> Returns(env, e)
    ensures (forall e :: e in elements ==> Storable(env, e)) && Backs(env, elements) == elements
    decreases elements, 0
  {
    if elements != [] {
      var n := |elements| - 1;
      ElementsBack(env, elements[..n]);
      ReturnsBack(env, elements[n]);
      assert elements == elements[..n] + [elements[n]];
    }
  }

  lemma {:induction false} FieldsBack(env: Env, fields: seq<NodeField>)
    requires forall f :: f in fields ==> Returns(env, f.node)
    ensures (forall f :: f in fields ==> Storable(env, f.node)) && FieldBacks(env, fields) == fields
    decreases fields, 0
  {
    if fields != [] {
      var n := |fields| - 1;
      FieldsBack(env, fields[..n]);
      ReturnsBack(env, fields[n].node);
      assert fields == fields[..n] + [fields[n]];
    }
  }

  // What must hold of a tree that comes back as it was.

  ghost predicate DistinctDomNames(members: seq<DomField>) {
    forall i, j :: 0 <= i < j < |members| ==> members[i].name != members[j].name
  }

  lemma {:induction false} PutDistinct(members: seq<DomField>, name: Bytes, d: Dom)
    requires DistinctDomNames(members)
    ensures DistinctDomNames(Put(members, name, d))
    ensures forall m :: m in Put(members, name, d) ==> m.name == name || exists k :: k in members && k.name == m.name
  {
    if members != [] && members[0].name != name {
      PutDistinct(members[1..], name, d);
    }
  }

  /** Stored names are distinct and short. */
  lemma {:induction false} StoredNames(env: Env, fields: seq<NodeField>)
    requires WriteMembers(env, fields).Some?
    ensures DistinctDomNames(WriteMembers(env, fields).value)
    ensures forall m :: m in WriteMembers(env, fields).value ==> |m.name| < 0x1_0000
  {
    if fields != [] {
      var n := |fields| - 1;
      StoredNames(env, fields[..n]);
      PutDistinct(WriteMembers(env, fields[..n]).value, StoredName(fields[n].name), WriteNode(env, fields[n].node).value);
    }
  }

  lemma {:induction false} ReadMember(env: Env, members: seq<DomField>, i: nat)
    requires ReadMembers(env, members).Some? && i < |members|
    ensures var f := ReadMembers(env, members).value[i];
            f.name == members[i].name && ReadNode(env, members[i].dom) == Some(f.node)
  {
    if i > 0 {
      ReadMember(env, members[1..], i - 1);
    }
  }

  lemma {:induction false} ReadItem(env: Env, items: seq<Dom>, i: nat)
    requires ReadItems(env, items).Some? && i < |items|
    ensures ReadNode(env, items[i]) == Some(ReadItems(env, items).value[i])
  {
    if i > 0 {
      ReadItem(env, items[1..], i - 1);
    }
  }

  lemma {:induction false} WriteItem(env: Env, elements: seq<Node>, i: nat)
    requires WriteItems(env, elements).Some? && i < |elements|
    ensures |WriteItems(env, elements).value| == |elements|
    ensures WriteNode(env, elements[i]) == Some(WriteItems(env, elements).value[i])
  {
    var n := |elements| - 1;
    if i < n {
      WriteItem(env, elements[..n], i);
    } else if n > 0 {
      WriteItem(env, elements[..n], 0);
    }
  }

  lemma {:induction false} OnlyReturning(env: Env, node: Node)
    requires WriteNode(env, node).Some? && ReadNode(env, WriteNode(env, node).value) == Some(node)
    ensures Returns(env, node)
    decreases node, 1
  {
    match node
    case Scalar(kind, v) => ScalarRoundTrip(env, kind, v);
    case Array(elements) => OnlyReturningElements(env, elements);
    case Object(fields) =>
      FieldsDistinct(env, fields);
      OnlyReturningFields(env, fields);
  }

  lemma {:induction false} OnlyReturningElements(env: Env, elements: seq<Node>)
    requires WriteItems(env, elements).Some? && ReadItems(env, WriteItems(env, elements).value) == Some(elements)
    ensures forall e :: e in elements ==> Returns(env, e)
    decreases elements, 0
  {
    forall i | 0 <= i < |elements|
      ensures Returns(env, elements[i])
    {
      WriteItem(env, elements, i);
      ReadItem(env, WriteItems(env, elements).value, i);
      OnlyReturning(env, elements[i]);
    }
  }

  lemma {:induction false} OnlyReturningFields(env: Env, fields: seq<NodeField>)
    requires DistinctNames(fields) && ShortNames(fields)
    requires WriteMembers(env, fields).Some? && ReadMembers(env, WriteMembers(env, fields).value) == Some(fields)
    ensures forall f :: f in fields ==> Returns(env, f.node)
    decreases fields, 0
  {
    MembersInOrder(env, fields);
    forall i | 0 <= i < |fields|
      ensures Returns(env, fields[i].node)
    {
      ReadMember(env, WriteMembers(env, fields).value, i);
      OnlyReturning(env, fields[i].node);
    }
  }

  lemma FieldsDistinct(env: Env, fields: seq<NodeField>)
    requires WriteMembers(env, fields).Some? && ReadMembers(env, WriteMembers(env, fields).value) == Some(fields)
    ensures DistinctNames(fields) && ShortNames(fields)
  {
    var members := WriteMembers(env, fields).value;
    StoredNames(env, fields);
    forall i | 0 <= i < |fields|
      ensures fields[i].name == members[i].name
    {
      ReadMember(env, members, i);
    }
  }

  /** A tree that is stored and read comes back as it was exactly if its scalars do and its field names are
      distinct and fit sixteen bits. */
  lemma RoundTrip(env: Env, node: Node)
    ensures Returns(env, node) <==> WriteNode(env, node).Some? && ReadNode(env, WriteNode(env, node).value) == Some(node)
  {
    if Returns(env, node) {
      ReturnsBack(env, node);
      StoredAndRead(env, node);
    } else if WriteNode(env, node).Some? && ReadNode(env, WriteNode(env, node).value) == Some(node) {
      OnlyReturning(env, node);
    }
  }
}
