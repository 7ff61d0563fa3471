/** The redacting diagnostic printer (client/diagnostic.go): CBOR trees printed under a Go type. */
module Diagnostic {
  import opened Bytes

  // ------------------------------------------------------------------ CBOR trees

  datatype Key = IntegerKey(value: int) | TextKey(text: string) | OtherKey(cbor: bytes)

  /** `Map` lists its entries in the order one iteration of the Go map visits them. */
  datatype Value =
    | Unsigned(n: nat)
    | Negative(n: nat)
    | ByteString(b: bytes)
    | Text(text: string)
    | Array(items: seq<Value>)
    | Map(entries: seq<Entry>)
    | Tag(number: nat, content: Value)
    | Simple(code: byte)
    | Float(info: byte, bits: nat)

  datatype Entry = Entry(key: Key, value: Value)

  // ------------------------------------------------------------------- Go types

  datatype Type =
    | Struct(fields: seq<FieldInfo>)
    | MapType(elem: Type)
    | ListType(elem: Type)
    | Pointer(elem: Type)
    | OtherType

  /** A struct field and its parsed tags; `wireNumber` is ParseInt of the wire name. */
  datatype FieldInfo = FieldInfo(
    goName: string,
    exported: bool,
    anonymous: bool,
    wireName: string,
    keyAsInt: bool,
    wireNumber: Option<int>,
    diagName: string,
    diagOptions: seq<string>,
    typ: Type)

  datatype Field = Field(name: string, goName: string, path: string, typ: Type, integerKey: bool, redact: bool)

  datatype RenderError = InvalidIntegerTag | UnknownOption | InvalidName | DiagnoseFailed

  /** Library calls and the message schema's tables. */
  datatype Config = Config(
    encodeKey: Key -> bytes,
    diagnose: Value -> Option<string>,
    diagnoseKey: bytes -> Option<string>,
    decodeUnsigned: Value -> Option<nat>,
    subCommandParams: map<nat, Type>,
    mapValueTypes: map<(string, string), Type>)

  function Indirect(t: Type): Type {
    match t
    case Pointer(elem) => Indirect(elem)
    case _ => t
  }

  function IndirectOption(t: Option<Type>): Option<Type> {
    match t
    case None => None
    case Some(typ) => Some(Indirect(typ))
  }

  function CollectionElementType(t: Option<Type>): Option<Type> {
    match IndirectOption(t)
    case Some(ListType(elem)) => Some(elem)
    case _ => None
  }

  function MapElementType(t: Option<Type>): Option<Type> {
    match IndirectOption(t)
    case Some(MapType(elem)) => Some(elem)
    case _ => None
  }

  function JoinPath(parent: string, child: string): string {
    if parent == "" then child else parent + "." + child
  }

  function TypeSize(t: Type): nat {
    match t
    case Struct(fields) => 1 + FieldsSize(fields)
    case MapType(elem) => 1 + TypeSize(elem)
    case ListType(elem) => 1 + TypeSize(elem)
    case Pointer(elem) => 1 + TypeSize(elem)
    case OtherType => 1
  }

  function FieldsSize(fields: seq<FieldInfo>): nat {
    if fields == [] then 0 else 1 + TypeSize(fields[0].typ) + FieldsSize(fields[1..])
  }

  lemma {:induction false} IndirectSize(t: Type)
    ensures TypeSize(Indirect(t)) <= TypeSize(t)
  {
    match t
    case Pointer(elem) => IndirectSize(elem);
    case _ =>
  }

  function Redacts(options: seq<string>): Result<bool, RenderError> {
    if exists o :: o in options && o != "" && o != "redact" then Failure(UnknownOption)
    else Success("redact" in options)
  }

  type Fields = map<bytes, Field>

  /** collectFields over the fields of one struct, embedded structs in place; later fields win. */
  function Collect(cfg: Config, fields: seq<FieldInfo>, path: string, result: Fields): Result<Fields, RenderError>
    decreases FieldsSize(fields)
  {
    if fields == [] then Success(result)
    else
      var f := fields[0];
      var rest := fields[1..];
      if !f.exported || f.wireName == "-" then Collect(cfg, rest, path, result)
      else if f.anonymous && f.wireName == "" then
        IndirectSize(f.typ);
        (match Indirect(f.typ)
         case Struct(inner) =>
           (match Collect(cfg, inner, path, result)
            case Failure(error) => Failure(error)
            case Success(now) => Collect(cfg, rest, path, now))
         case _ => Collect(cfg, rest, path, result))
      else if f.keyAsInt && f.wireNumber.None? then Failure(InvalidIntegerTag)
      else
        match Redacts(f.diagOptions)
        case Failure(error) => Failure(error)
        case Success(redact) =>
          var name := if f.wireName == "" then f.goName else f.wireName;
          var key := cfg.encodeKey(if f.keyAsInt then IntegerKey(f.wireNumber.value) else TextKey(name));
          Collect(cfg, rest, path,
                  result[key := Field(f.diagName, f.goName, JoinPath(path, f.goName), f.typ, f.keyAsInt, redact)])
  }

  function FieldsOf(cfg: Config, schema: Option<Type>, path: string): Result<Fields, RenderError> {
    match IndirectOption(schema)
    case Some(Struct(fields)) => Collect(cfg, fields, path, map[])
    case _ => Success(map[])
  }

  // ------------------------------------------------------------- redacted notation

  const REDACTED := "/[REDACTED]/"

  function Indent(depth: nat): string {
    if depth == 0 then "" else "  " + Indent(depth - 1)
  }

  function RedactedCollection(open: string, close: string, depth: nat): string {
    open + "\n" + Indent(depth + 1) + REDACTED + "\n" + Indent(depth) + close
  }

  function Decimal(n: nat): string {
    if n < 10 then [('0' as int + n) as char] else Decimal(n / 10) + [('0' as int + n % 10) as char]
  }

  function RedactedNotation(v: Value, depth: nat): string {
    match v
    case Unsigned(_) => REDACTED + " 0"
    case Negative(_) => REDACTED + " -1"
    case ByteString(_) => "h'" + REDACTED + "'"
    case Text(_) => REDACTED + " \"\""
    case Array(_) => RedactedCollection("[", "]", depth)
    case Map(_) => RedactedCollection("{", "}", depth)
    case Tag(number, content) => Decimal(number) + "(" + RedactedNotation(content, depth) + ")"
    case Simple(code) =>
      if code == 20 || code == 21 then REDACTED + " false"
      else if code == 22 then REDACTED + " null"
      else if code == 23 then REDACTED + " undefined"
      else REDACTED + " simple(0)"
    case Float(_, _) => REDACTED + " 0.0"
  }

  /** All that may be learnt of a redacted value. */
  datatype Shape =
    | AnUnsigned | ANegative | ABytes | AText | AnArray | AMap
    | ATag(number: nat, content: Shape)
    | ABoolean | ANull | AnUndefined | AFloat | AnotherSimple

  function ShapeOf(v: Value): Shape {
    match v
    case Unsigned(_) => AnUnsigned
    case Negative(_) => ANegative
    case ByteString(_) => ABytes
    case Text(_) => AText
    case Array(_) => AnArray
    case Map(_) => AMap
    case Tag(number, content) => ATag(number, ShapeOf(content))
    case Simple(code) =>
      if code == 20 || code == 21 then ABoolean else if code == 22 then ANull
      else if code == 23 then AnUndefined else AnotherSimple
    case Float(_, _) => AFloat
  }

  lemma {:induction false} RedactionShowsShapeOnly(v: Value, w: Value, depth: nat)
    requires ShapeOf(v) == ShapeOf(w)
    ensures RedactedNotation(v, depth) == RedactedNotation(w, depth)
  {
    if v.Tag? {
      RedactionShowsShapeOnly(v.content, w.content, depth);
    }
  }

  // ----------------------------------------------------------------------- sorting

  /** An element and the encoded key it is ordered by. */
  datatype Keyed<T> = Keyed(key: bytes, item: T)

  predicate LexBefore(a: bytes, b: bytes)
    requires |a| == |b|
  {
    a != [] && (a[0] < b[0] || (a[0] == b[0] && LexBefore(a[1..], b[1..])))
  }

  /** Shorter encodings first, then bytewise. */
  predicate Before(a: bytes, b: bytes) {
    |a| < |b| || (|a| == |b| && LexBefore(a, b))
  }

  function Insert<T>(x: Keyed<T>, s: seq<Keyed<T>>): seq<Keyed<T>> {
    if s == [] || !Before(s[0].key, x.key) then [x] + s else [s[0]] + Insert(x, s[1..])
  }

  function Sort<T>(s: seq<Keyed<T>>): seq<Keyed<T>> {
    if s == [] then [] else Insert(s[0], Sort(s[1..]))
  }

  // --------------------------------------------------------------------- rendering

  datatype Rendered = Rendered(notation: string, redacted: seq<string>)

  type Outcome = Result<Rendered, RenderError>

  function FieldFor(cfg: Config, fields: Fields, key: Key): Option<Field> {
    var encoded := cfg.encodeKey(key);
    if encoded in fields then Some(fields[encoded]) else None
  }

  predicate IsSubCommand(field: Option<Field>) {
    field.Some? && field.value.goName == "SubCommand"
  }

  /** The sub-command after visiting the entries in order; each decodable one overwrites it. */
  function SubCommandOf(cfg: Config, fields: Fields, entries: seq<Entry>, current: nat): nat {
    if entries == [] then current
    else
      var n := cfg.decodeUnsigned(entries[0].value);
      SubCommandOf(cfg, fields, entries[1..],
                   if IsSubCommand(FieldFor(cfg, fields, entries[0].key)) && n.Some? then n.value else current)
  }

  /** The schema a map entry's value is printed under. */
  function ChildSchema(cfg: Config, field: Option<Field>, key: Key, elem: Option<Type>, path: string, subCommand: nat): Option<Type> {
    if field.Some? then
      (if field.value.goName == "SubCommandParams" && subCommand in cfg.subCommandParams
       then Some(cfg.subCommandParams[subCommand]) else Some(field.value.typ))
    else if key.TextKey? && (path, key.text) in cfg.mapValueTypes then Some(cfg.mapValueTypes[(path, key.text)])
    else elem
  }

  function FieldPath(parent: string, field: Option<Field>): string {
    if field.Some? then field.value.path else parent
  }

  function Comment(field: Option<Field>): string {
    if field.Some? && field.value.integerKey then "/" + field.value.name + "/ " else ""
  }

  predicate BadName(field: Option<Field>) {
    field.Some? && field.value.integerKey && '/' in field.value.name
  }

  /** Everything renderMap knows before it looks at the values. */
  datatype MapContext = MapContext(fields: Fields, elem: Option<Type>, path: string, subCommand: nat)

  function ContextOf(cfg: Config, fields: Fields, schema: Option<Type>, path: string, entries: seq<Entry>): MapContext {
    MapContext(fields, MapElementType(schema), path, SubCommandOf(cfg, fields, entries, 0))
  }

  predicate IsRedacted(field: Option<Field>) {
    field.Some? && field.value.redact
  }

  function RenderValue(cfg: Config, v: Value, schema: Option<Type>, path: string, depth: nat): Outcome
    decreases v, 2
  {
    match v
    case Array(items) =>
      if items == [] then Success(Rendered("[]", []))
      else
        (match RenderItems(cfg, items, CollectionElementType(schema), path, depth)
         case Failure(error) => Failure(error)
         case Success(body) => Success(Rendered("[\n" + body.notation + Indent(depth) + "]", body.redacted)))
    case Map(entries) =>
      (match FieldsOf(cfg, schema, path)
       case Failure(error) => Failure(error)
       case Success(fields) =>
         if entries == [] then Success(Rendered("{}", []))
         else Braces(Join(Sort(Lines(cfg, ContextOf(cfg, fields, schema, path, entries), entries, depth))), depth))
    case _ =>
      var notation := cfg.diagnose(v);
      if notation.Some? then Success(Rendered(notation.value, [])) else Failure(DiagnoseFailed)
  }

  /** A line ends in a comma unless it is the last one. */
  function Separator(linesLeft: nat): string {
    if linesLeft > 1 then ",\n" else "\n"
  }

  function Extend(first: Rendered, rest: Outcome): Outcome {
    match rest
    case Failure(error) => Failure(error)
    case Success(r) => Success(Rendered(first.notation + r.notation, first.redacted + r.redacted))
  }

  /** Array elements, one per line. */
  function RenderItems(cfg: Config, items: seq<Value>, schema: Option<Type>, path: string, depth: nat): Outcome
    decreases items, 0
  {
    if items == [] then Success(Rendered("", []))
    else
      match RenderValue(cfg, items[0], schema, path, depth + 1)
      case Failure(error) => Failure(error)
      case Success(first) =>
        Extend(Rendered(Indent(depth + 1) + first.notation + Separator(|items|), first.redacted),
               RenderItems(cfg, items[1..], schema, path, depth))
  }

  /** One map entry: indentation, field comment, key and value. */
  function RenderEntry(cfg: Config, context: MapContext, entry: Entry, depth: nat): Outcome
    decreases entry, 3
  {
    var field := FieldFor(cfg, context.fields, entry.key);
    var keyNotation := cfg.diagnoseKey(cfg.encodeKey(entry.key));
    if BadName(field) then Failure(InvalidName)
    else if keyNotation.None? then Failure(DiagnoseFailed)
    else
      var head := Indent(depth + 1) + Comment(field) + keyNotation.value + ": ";
      if IsRedacted(field) then
        Success(Rendered(head + RedactedNotation(entry.value, depth + 1), [field.value.path]))
      else
        match RenderValue(cfg, entry.value,
                          ChildSchema(cfg, field, entry.key, context.elem, context.path, context.subCommand),
                          FieldPath(context.path, field), depth + 1)
        case Failure(error) => Failure(error)
        case Success(value) => Success(Rendered(head + value.notation, value.redacted))
  }

  function Lines(cfg: Config, context: MapContext, entries: seq<Entry>, depth: nat): seq<Keyed<Outcome>>
    decreases entries, 4
  {
    if entries == [] then []
    else
      [Keyed(cfg.encodeKey(entries[0].key), RenderEntry(cfg, context, entries[0], depth))]
      + Lines(cfg, context, entries[1..], depth)
  }

  /** The lines in key order, up to the first that failed. */
  function Join(lines: seq<Keyed<Outcome>>): Outcome {
    if lines == [] then Success(Rendered("", []))
    else
      match lines[0].item
      case Failure(error) => Failure(error)
      case Success(first) =>
        Extend(Rendered(first.notation + Separator(|lines|), first.redacted), Join(lines[1..]))
  }

  function Braces(body: Outcome, depth: nat): Outcome {
    match body
    case Failure(error) => Failure(error)
    case Success(r) => Success(Rendered("{\n" + r.notation + Indent(depth) + "}", r.redacted))
  }

  // ------------------------------------------------------------- sorting is canonical

  lemma {:induction false} LexTotal(a: bytes, b: bytes, c: bytes)
    requires |a| == |b| == |c|
    ensures a != b ==> LexBefore(a, b) || LexBefore(b, a)
    ensures !(LexBefore(a, b) && LexBefore(b, a))
    ensures LexBefore(a, b) && LexBefore(b, c) ==> LexBefore(a, c)
  {
    if a != [] {
      LexTotal(a[1..], b[1..], c[1..]);
      assert a == [a[0]] + a[1..] && b == [b[0]] + b[1..];
    }
  }

  lemma BeforeTotal(a: bytes, b: bytes, c: bytes)
    ensures a != b ==> Before(a, b) || Before(b, a)
    ensures !(Before(a, b) && Before(b, a))
    ensures Before(a, b) && Before(b, c) ==> Before(a, c)
  {
    if |a| == |b| == |c| {
      LexTotal(a, b, c);
    } else if |a| == |b| {
      LexTotal(a, b, a);
    }
  }

  ghost predicate Distinct<T(!new)>(s: seq<Keyed<T>>) {
    forall i, j :: 0 <= i < j < |s| ==> s[i].key != s[j].key
  }

  ghost predicate Sorted<T(!new)>(s: seq<Keyed<T>>) {
    forall i, j :: 0 <= i < j < |s| ==> Before(s[i].key, s[j].key)
  }

  ghost predicate SameElements<T(!new)>(a: seq<Keyed<T>>, b: seq<Keyed<T>>) {
    forall x :: x in a <==> x in b
  }

  lemma {:induction false} InsertSorts<T(!new)>(x: Keyed<T>, s: seq<Keyed<T>>)
    requires Sorted(s) && forall y :: y in s ==> y.key != x.key
    ensures Sorted(Insert(x, s)) && SameElements(Insert(x, s), [x] + s)
  {
    if s != [] {
      var tail := s[1..];
      assert s == [s[0]] + tail;
      if Before(s[0].key, x.key) {
        InsertSorts(x, tail);
        assert forall y :: y in Insert(x, tail) ==> y == x || y in tail;
        forall y | y in Insert(x, tail) ensures Before(s[0].key, y.key) {
          if y != x {
            var k :| 0 <= k < |tail| && tail[k] == y;
            assert s[k + 1] == y;
          }
        }
      } else {
        BeforeTotal(x.key, s[0].key, s[0].key);
        forall k | 0 <= k < |s| ensures Before(x.key, s[k].key) {
          BeforeTotal(x.key, s[0].key, s[k].key);
        }
      }
    }
  }

  lemma {:induction false} SortSorts<T(!new)>(s: seq<Keyed<T>>)
    requires Distinct(s)
    ensures Sorted(Sort(s)) && SameElements(Sort(s), s)
  {
    if s != [] {
      var tail := s[1..];
      assert s == [s[0]] + tail;
      SortSorts(tail);
      forall y | y in Sort(tail) ensures y.key != s[0].key {
        var k :| 0 <= k < |tail| && tail[k] == y;
        assert s[k + 1] == y;
      }
      InsertSorts(s[0], Sort(tail));
    }
  }

  lemma {:induction false} SortedUnique<T(!new)>(a: seq<Keyed<T>>, b: seq<Keyed<T>>)
    requires Sorted(a) && Sorted(b) && SameElements(a, b)
    ensures a == b
  {
    assert forall i :: 0 <= i < |a| ==> a[i] in b;
    assert forall i :: 0 <= i < |b| ==> b[i] in a;
    if a != [] && b != [] {
      assert a[0] in a && a[0] in b && b[0] in b && b[0] in a;
      BeforeTotal(a[0].key, b[0].key, a[0].key);
      assert a[0] == b[0];
      forall x | x in a[1..] ensures x in b[1..] {
        assert x in a && Before(a[0].key, x.key);
        BeforeTotal(a[0].key, a[0].key, a[0].key);
      }
      forall x | x in b[1..] ensures x in a[1..] {
        assert x in b && Before(b[0].key, x.key);
        BeforeTotal(b[0].key, b[0].key, b[0].key);
      }
      SortedUnique(a[1..], b[1..]);
    }
  }

  /** The order the elements were met in does not show after sorting. */
  lemma SortCanonical<T(!new)>(a: seq<Keyed<T>>, b: seq<Keyed<T>>)
    requires Distinct(a) && Distinct(b) && SameElements(a, b)
    ensures Sort(a) == Sort(b)
  {
    SortSorts(a);
    SortSorts(b);
    SortedUnique(Sort(a), Sort(b));
  }

  // --------------------------------------------------------------------- two runs

  ghost predicate DistinctKeys(cfg: Config, entries: seq<Entry>) {
    forall i, j :: 0 <= i < j < |entries| ==> cfg.encodeKey(entries[i].key) != cfg.encodeKey(entries[j].key)
  }

  ghost predicate Matches(x: Entry, y: Entry) {
    x.key == y.key
  }

  ghost predicate HasKey(entries: seq<Entry>, key: Key) {
    exists j :: 0 <= j < |entries| && entries[j].key == key
  }

  lemma Find(entries: seq<Entry>, x: Entry) returns (j: nat)
    requires HasKey(entries, x.key)
    ensures j < |entries| && Matches(x, entries[j])
  {
    j :| 0 <= j < |entries| && entries[j].key == x.key;
  }

  ghost predicate KeysWithin(xs: seq<Entry>, ys: seq<Entry>) {
    forall i :: 0 <= i < |xs| ==> HasKey(ys, xs[i].key)
  }

  ghost predicate SameKeys(cfg: Config, xs: seq<Entry>, ys: seq<Entry>) {
    DistinctKeys(cfg, xs) && DistinctKeys(cfg, ys) && KeysWithin(xs, ys) && KeysWithin(ys, xs)
  }

  /** At most one key of the struct names its sub-command. */
  ghost predicate OneSubCommand(fields: Fields) {
    forall k, l :: k in fields && l in fields && fields[k].goName == "SubCommand" && fields[l].goName == "SubCommand" ==> k == l
  }

  ghost predicate SubCommandShown(fields: Fields) {
    forall k :: k in fields && fields[k].goName == "SubCommand" ==> !fields[k].redact
  }

  /** Arrays and maps do not decode into an unsigned integer. */
  ghost predicate ContainersAreNotNumbers(cfg: Config) {
    forall v: Value :: v.Array? || v.Map? ==> cfg.decodeUnsigned(v) == None
  }

  /** The trees agree except inside fields redacted under this schema, where only the shapes agree;
      map entries may be visited in any order in either. */
  ghost predicate Agree(cfg: Config, v: Value, w: Value, schema: Option<Type>, path: string)
    decreases v, 1
  {
    match v
    case Array(xs) => w.Array? && AgreeItems(cfg, xs, w.items, CollectionElementType(schema), path)
    case Map(xs) =>
      && w.Map? && SameKeys(cfg, xs, w.entries)
      && (match FieldsOf(cfg, schema, path)
          case Failure(_) => true
          case Success(fields) =>
            && OneSubCommand(fields) && SubCommandShown(fields)
            && AgreeEntries(cfg, ContextOf(cfg, fields, schema, path, xs), xs, w.entries))
    case _ => v == w
  }

  ghost predicate AgreeItems(cfg: Config, xs: seq<Value>, ys: seq<Value>, schema: Option<Type>, path: string)
    decreases xs, 0
  {
    |xs| == |ys| && forall i :: 0 <= i < |xs| ==> Agree(cfg, xs[i], ys[i], schema, path)
  }

  ghost predicate AgreeEntries(cfg: Config, context: MapContext, xs: seq<Entry>, ys: seq<Entry>)
    decreases xs, 0
  {
    forall i, j :: 0 <= i < |xs| && 0 <= j < |ys| && Matches(xs[i], ys[j]) ==> AgreeEntry(cfg, context, xs[i], ys[j])
  }

  function SchemaIn(cfg: Config, context: MapContext, key: Key): Option<Type> {
    ChildSchema(cfg, FieldFor(cfg, context.fields, key), key, context.elem, context.path, context.subCommand)
  }

  ghost predicate AgreeEntry(cfg: Config, context: MapContext, x: Entry, y: Entry)
    decreases x, 0
  {
    var field := FieldFor(cfg, context.fields, x.key);
    if IsRedacted(field) then ShapeOf(x.value) == ShapeOf(y.value)
    else Agree(cfg, x.value, y.value, SchemaIn(cfg, context, x.key), FieldPath(context.path, field))
  }

  lemma {:induction false} SubCommandAbsent(cfg: Config, fields: Fields, entries: seq<Entry>, current: nat)
    requires forall i :: 0 <= i < |entries| ==> !IsSubCommand(FieldFor(cfg, fields, entries[i].key))
    ensures SubCommandOf(cfg, fields, entries, current) == current
  {
    if entries != [] {
      SubCommandAbsent(cfg, fields, entries[1..], current);
    }
  }

  /** With one sub-command field, the sub-command is the one its entry decodes to, wherever it is. */
  lemma {:induction false} SubCommandFound(cfg: Config, fields: Fields, entries: seq<Entry>, current: nat, i: nat)
    requires DistinctKeys(cfg, entries) && OneSubCommand(fields)
    requires i < |entries| && IsSubCommand(FieldFor(cfg, fields, entries[i].key))
    ensures SubCommandOf(cfg, fields, entries, current) ==
            var n := cfg.decodeUnsigned(entries[i].value); if n.Some? then n.value else current
  {
    forall j | 0 <= j < |entries| && j != i ensures !IsSubCommand(FieldFor(cfg, fields, entries[j].key)) {
      assert cfg.encodeKey(entries[i].key) != cfg.encodeKey(entries[j].key);
    }
    var tail := entries[1..];
    if i == 0 {
      forall j | 0 <= j < |tail| ensures tail[j] == entries[j + 1] {}
      var n := cfg.decodeUnsigned(entries[0].value);
      SubCommandAbsent(cfg, fields, tail, if n.Some? then n.value else current);
    } else {
      assert tail[i - 1] == entries[i];
      SubCommandFound(cfg, fields, tail, current, i - 1);
    }
  }

  ghost predicate DecodeAlike(cfg: Config, fields: Fields, x: Entry, y: Entry) {
    Matches(x, y) && IsSubCommand(FieldFor(cfg, fields, x.key)) ==> cfg.decodeUnsigned(x.value) == cfg.decodeUnsigned(y.value)
  }

  ghost predicate AllDecodeAlike(cfg: Config, fields: Fields, xs: seq<Entry>, ys: seq<Entry>) {
    forall i, j :: 0 <= i < |xs| && 0 <= j < |ys| ==> DecodeAlike(cfg, fields, xs[i], ys[j])
  }

  lemma NoSubCommandWithin(cfg: Config, fields: Fields, xs: seq<Entry>, ys: seq<Entry>, j: nat)
    requires KeysWithin(ys, xs) && j < |ys|
    requires forall i :: 0 <= i < |xs| ==> !IsSubCommand(FieldFor(cfg, fields, xs[i].key))
    ensures !IsSubCommand(FieldFor(cfg, fields, ys[j].key))
  {
    var i := Find(xs, ys[j]);
  }

  lemma SubCommandMatches(cfg: Config, fields: Fields, xs: seq<Entry>, ys: seq<Entry>, i: nat)
    requires SameKeys(cfg, xs, ys) && OneSubCommand(fields) && AllDecodeAlike(cfg, fields, xs, ys)
    requires i < |xs| && IsSubCommand(FieldFor(cfg, fields, xs[i].key))
    ensures SubCommandOf(cfg, fields, xs, 0) == SubCommandOf(cfg, fields, ys, 0)
  {
    var j := Find(ys, xs[i]);
    SubCommandFound(cfg, fields, xs, 0, i);
    SubCommandFound(cfg, fields, ys, 0, j);
    assert DecodeAlike(cfg, fields, xs[i], ys[j]);
  }

  /** Two visits that decode every sub-command entry alike arrive at the same sub-command. */
  lemma SameSubCommand(cfg: Config, fields: Fields, xs: seq<Entry>, ys: seq<Entry>)
    requires SameKeys(cfg, xs, ys) && OneSubCommand(fields) && AllDecodeAlike(cfg, fields, xs, ys)
    ensures SubCommandOf(cfg, fields, xs, 0) == SubCommandOf(cfg, fields, ys, 0)
  {
    if i :| 0 <= i < |xs| && IsSubCommand(FieldFor(cfg, fields, xs[i].key)) {
      SubCommandMatches(cfg, fields, xs, ys, i);
    } else {
      SubCommandAbsent(cfg, fields, xs, 0);
      forall j | 0 <= j < |ys| ensures !IsSubCommand(FieldFor(cfg, fields, ys[j].key)) {
        NoSubCommandWithin(cfg, fields, xs, ys, j);
      }
      SubCommandAbsent(cfg, fields, ys, 0);
    }
  }

  /** An entry that holds a shown sub-command decodes alike in both trees. */
  lemma AgreeDecodesAlike(cfg: Config, context: MapContext, x: Entry, y: Entry)
    requires ContainersAreNotNumbers(cfg) && SubCommandShown(context.fields)
    requires AgreeEntry(cfg, context, x, y) && IsSubCommand(FieldFor(cfg, context.fields, x.key))
    ensures cfg.decodeUnsigned(x.value) == cfg.decodeUnsigned(y.value)
  {
    assert !IsRedacted(FieldFor(cfg, context.fields, x.key));
    if x.value.Array? || x.value.Map? {
      assert y.value.Array? || y.value.Map?;
    } else {
      assert x.value == y.value;
    }
  }

  lemma {:induction false} LinesAt(cfg: Config, context: MapContext, entries: seq<Entry>, depth: nat)
    ensures |Lines(cfg, context, entries, depth)| == |entries|
    ensures forall i :: 0 <= i < |entries| ==>
              Lines(cfg, context, entries, depth)[i]
              == Keyed(cfg.encodeKey(entries[i].key), RenderEntry(cfg, context, entries[i], depth))
  {
    if entries != [] {
      LinesAt(cfg, context, entries[1..], depth);
    }
  }

  ghost predicate RenderAlike(cfg: Config, context: MapContext, x: Entry, y: Entry, depth: nat) {
    RenderEntry(cfg, context, x, depth) == RenderEntry(cfg, context, y, depth)
  }

  lemma LinesSubset(cfg: Config, context: MapContext, xs: seq<Entry>, ys: seq<Entry>, depth: nat, i: nat)
    requires i < |xs| && KeysWithin(xs, ys)
    requires forall j :: 0 <= j < |ys| && Matches(xs[i], ys[j]) ==> RenderAlike(cfg, context, xs[i], ys[j], depth)
    ensures |Lines(cfg, context, xs, depth)| == |xs|
    ensures Lines(cfg, context, xs, depth)[i] in Lines(cfg, context, ys, depth)
  {
    LinesAt(cfg, context, xs, depth);
    LinesAt(cfg, context, ys, depth);
    var j := Find(ys, xs[i]);
    assert RenderAlike(cfg, context, xs[i], ys[j], depth);
    assert Lines(cfg, context, xs, depth)[i] == Lines(cfg, context, ys, depth)[j];
  }

  lemma LinesDistinct(cfg: Config, context: MapContext, entries: seq<Entry>, depth: nat)
    requires DistinctKeys(cfg, entries)
    ensures Distinct(Lines(cfg, context, entries, depth))
  {
    LinesAt(cfg, context, entries, depth);
  }

  /** Entries that render alike key by key give the same lines once sorted, whatever their order. */
  lemma SameLines(cfg: Config, context: MapContext, xs: seq<Entry>, ys: seq<Entry>, depth: nat)
    requires SameKeys(cfg, xs, ys)
    requires forall i, j :: 0 <= i < |xs| && 0 <= j < |ys| && Matches(xs[i], ys[j]) ==>
               RenderAlike(cfg, context, xs[i], ys[j], depth)
    ensures Sort(Lines(cfg, context, xs, depth)) == Sort(Lines(cfg, context, ys, depth))
  {
    var a, b := Lines(cfg, context, xs, depth), Lines(cfg, context, ys, depth);
    LinesAt(cfg, context, xs, depth);
    LinesAt(cfg, context, ys, depth);
    forall i | 0 <= i < |a| ensures a[i] in b {
      LinesSubset(cfg, context, xs, ys, depth, i);
    }
    forall i | 0 <= i < |b| ensures b[i] in a {
      forall j | 0 <= j < |xs| && Matches(ys[i], xs[j]) ensures RenderAlike(cfg, context, ys[i], xs[j], depth) {
        assert Matches(xs[j], ys[i]);
        assert RenderAlike(cfg, context, xs[j], ys[i], depth);
      }
      LinesSubset(cfg, context, ys, xs, depth, i);
    }
    LinesDistinct(cfg, context, xs, depth);
    LinesDistinct(cfg, context, ys, depth);
    SortCanonical(a, b);
  }

  /** The same sorted lines between the same braces. */
  lemma RenderMapsAlike(cfg: Config, fields: Fields, schema: Option<Type>, path: string, xs: seq<Entry>, ys: seq<Entry>, depth: nat)
    requires FieldsOf(cfg, schema, path) == Success(fields) && SameKeys(cfg, xs, ys)
    requires Sort(Lines(cfg, ContextOf(cfg, fields, schema, path, xs), xs, depth))
          == Sort(Lines(cfg, ContextOf(cfg, fields, schema, path, ys), ys, depth))
    ensures RenderValue(cfg, Map(xs), schema, path, depth) == RenderValue(cfg, Map(ys), schema, path, depth)
  {
    assert xs != [] ==> HasKey(ys, xs[0].key);
    assert ys != [] ==> HasKey(xs, ys[0].key);
  }

  /** Trees that agree up to redaction, as the collected fields have it, render alike. */
  lemma {:induction false} AgreeingTreesRenderAlike(cfg: Config, v: Value, w: Value, schema: Option<Type>, path: string, depth: nat)
    requires ContainersAreNotNumbers(cfg) && Agree(cfg, v, w, schema, path)
    ensures RenderValue(cfg, v, schema, path, depth) == RenderValue(cfg, w, schema, path, depth)
    decreases v, 1
  {
    match v
    case Array(xs) => ItemsHideRedacted(cfg, xs, w.items, CollectionElementType(schema), path, depth);
    case Map(xs) =>
      match FieldsOf(cfg, schema, path) {
        case Failure(_) =>
        case Success(fields) =>
          EntriesHideRedacted(cfg, fields, schema, path, xs, w.entries, depth);
          RenderMapsAlike(cfg, fields, schema, path, xs, w.entries, depth);
      }
    case _ =>
  }

  lemma {:induction false} ItemsHideRedacted(cfg: Config, xs: seq<Value>, ys: seq<Value>, schema: Option<Type>, path: string, depth: nat)
    requires ContainersAreNotNumbers(cfg) && AgreeItems(cfg, xs, ys, schema, path)
    ensures RenderItems(cfg, xs, schema, path, depth) == RenderItems(cfg, ys, schema, path, depth)
    decreases xs, 0
  {
    if xs != [] {
      AgreeingTreesRenderAlike(cfg, xs[0], ys[0], schema, path, depth + 1);
      ItemsHideRedacted(cfg, xs[1..], ys[1..], schema, path, depth);
    }
  }

  lemma {:induction false} EntriesHideRedacted(cfg: Config, fields: Fields, schema: Option<Type>, path: string,
                                               xs: seq<Entry>, ys: seq<Entry>, depth: nat)
    requires ContainersAreNotNumbers(cfg) && SameKeys(cfg, xs, ys) && OneSubCommand(fields) && SubCommandShown(fields)
    requires AgreeEntries(cfg, ContextOf(cfg, fields, schema, path, xs), xs, ys)
    ensures ContextOf(cfg, fields, schema, path, xs) == ContextOf(cfg, fields, schema, path, ys)
    ensures Sort(Lines(cfg, ContextOf(cfg, fields, schema, path, xs), xs, depth))
         == Sort(Lines(cfg, ContextOf(cfg, fields, schema, path, ys), ys, depth))
    decreases xs, 0
  {
    AgreeSubCommand(cfg, ContextOf(cfg, fields, schema, path, xs), xs, ys);
    ghost var context := ContextOf(cfg, fields, schema, path, xs);
    forall i, j | 0 <= i < |xs| && 0 <= j < |ys| && Matches(xs[i], ys[j])
      ensures RenderAlike(cfg, context, xs[i], ys[j], depth)
    {
      EntryHidesRedacted(cfg, context, xs[i], ys[j], depth);
    }
    SameLines(cfg, context, xs, ys, depth);
  }

  lemma AgreeSubCommand(cfg: Config, context: MapContext, xs: seq<Entry>, ys: seq<Entry>)
    requires ContainersAreNotNumbers(cfg) && SameKeys(cfg, xs, ys)
    requires OneSubCommand(context.fields) && SubCommandShown(context.fields) && AgreeEntries(cfg, context, xs, ys)
    ensures SubCommandOf(cfg, context.fields, xs, 0) == SubCommandOf(cfg, context.fields, ys, 0)
  {
    forall i, j | 0 <= i < |xs| && 0 <= j < |ys| ensures DecodeAlike(cfg, context.fields, xs[i], ys[j]) {
      if Matches(xs[i], ys[j]) && IsSubCommand(FieldFor(cfg, context.fields, xs[i].key)) {
        AgreeDecodesAlike(cfg, context, xs[i], ys[j]);
      }
    }
    SameSubCommand(cfg, context.fields, xs, ys);
  }

  lemma {:induction false} EntryHidesRedacted(cfg: Config, context: MapContext, x: Entry, y: Entry, depth: nat)
    requires ContainersAreNotNumbers(cfg) && Matches(x, y) && AgreeEntry(cfg, context, x, y)
    ensures RenderAlike(cfg, context, x, y, depth)
    decreases x, 0
  {
    var field := FieldFor(cfg, context.fields, x.key);
    if IsRedacted(field) {
      RedactionShowsShapeOnly(x.value, y.value, depth + 1);
    } else {
      AgreeingTreesRenderAlike(cfg, x.value, y.value, SchemaIn(cfg, context, x.key), FieldPath(context.path, field), depth + 1);
    }
  }

  /** Go visits a map's entries in any order; no order shows in the output. */
  lemma VisitOrderDoesNotShow(cfg: Config, xs: seq<Entry>, ys: seq<Entry>, schema: Option<Type>, path: string, depth: nat)
    requires DistinctKeys(cfg, xs) && multiset(xs) == multiset(ys)
    requires FieldsOf(cfg, schema, path).Success? ==> OneSubCommand(FieldsOf(cfg, schema, path).value)
    ensures RenderValue(cfg, Map(xs), schema, path, depth) == RenderValue(cfg, Map(ys), schema, path, depth)
  {
    match FieldsOf(cfg, schema, path)
    case Failure(_) =>
    case Success(fields) =>
      PermutedKeys(cfg, xs, ys);
      PermutedLines(cfg, fields, schema, path, xs, ys, depth);
      RenderMapsAlike(cfg, fields, schema, path, xs, ys, depth);
  }

  ghost predicate PairsAreEqual(xs: seq<Entry>, ys: seq<Entry>) {
    forall i, j :: 0 <= i < |xs| && 0 <= j < |ys| && Matches(xs[i], ys[j]) ==> xs[i] == ys[j]
  }

  lemma PermutedLines(cfg: Config, fields: Fields, schema: Option<Type>, path: string, xs: seq<Entry>, ys: seq<Entry>, depth: nat)
    requires SameKeys(cfg, xs, ys) && OneSubCommand(fields) && PairsAreEqual(xs, ys)
    ensures ContextOf(cfg, fields, schema, path, xs) == ContextOf(cfg, fields, schema, path, ys)
    ensures Sort(Lines(cfg, ContextOf(cfg, fields, schema, path, xs), xs, depth))
         == Sort(Lines(cfg, ContextOf(cfg, fields, schema, path, ys), ys, depth))
  {
    forall i, j | 0 <= i < |xs| && 0 <= j < |ys| ensures DecodeAlike(cfg, fields, xs[i], ys[j]) {}
    SameSubCommand(cfg, fields, xs, ys);
    var context := ContextOf(cfg, fields, schema, path, xs);
    forall i, j | 0 <= i < |xs| && 0 <= j < |ys| && Matches(xs[i], ys[j])
      ensures RenderAlike(cfg, context, xs[i], ys[j], depth)
    {}
    SameLines(cfg, context, xs, ys, depth);
  }

  /** A permutation keeps the keys, and under distinct keys pairs every entry with itself. */
  lemma PermutedKeys(cfg: Config, xs: seq<Entry>, ys: seq<Entry>)
    requires DistinctKeys(cfg, xs) && multiset(xs) == multiset(ys)
    ensures SameKeys(cfg, xs, ys) && PairsAreEqual(xs, ys)
  {
    forall i | 0 <= i < |xs| ensures HasKey(ys, xs[i].key) {
      var j := Counterpart(xs, ys, i);
    }
    forall j | 0 <= j < |ys| ensures HasKey(xs, ys[j].key) {
      var i := Counterpart(ys, xs, j);
    }
    forall i, j | 0 <= i < |xs| && 0 <= j < |ys| && Matches(xs[i], ys[j]) ensures xs[i] == ys[j] {
      var k := Counterpart(ys, xs, j);
      assert cfg.encodeKey(xs[i].key) == cfg.encodeKey(xs[k].key);
    }
    forall i, j | 0 <= i < j < |ys| ensures cfg.encodeKey(ys[i].key) != cfg.encodeKey(ys[j].key) {
      PermutedDistinct(cfg, xs, ys, i, j);
    }
  }

  lemma Counterpart(xs: seq<Entry>, ys: seq<Entry>, i: nat) returns (j: nat)
    requires multiset(xs) == multiset(ys) && i < |xs|
    ensures j < |ys| && ys[j] == xs[i] && Matches(xs[i], ys[j])
  {
    assert xs[i] in multiset(ys);
    j :| 0 <= j < |ys| && ys[j] == xs[i];
  }

  lemma PermutedDistinct(cfg: Config, xs: seq<Entry>, ys: seq<Entry>, i: nat, j: nat)
    requires DistinctKeys(cfg, xs) && multiset(xs) == multiset(ys) && i < j < |ys|
    ensures cfg.encodeKey(ys[i].key) != cfg.encodeKey(ys[j].key)
  {
    var k := Counterpart(ys, xs, i);
    var l := Counterpart(ys, xs, j);
    if k == l {
      AtLeastTwice(ys, i, j);
      OnceEach(cfg, xs, k);
    } else if k < l {
      assert cfg.encodeKey(xs[k].key) != cfg.encodeKey(xs[l].key);
    } else {
      assert cfg.encodeKey(xs[l].key) != cfg.encodeKey(xs[k].key);
    }
  }

  lemma AtLeastTwice(s: seq<Entry>, i: nat, j: nat)
    requires i < j < |s| && s[i] == s[j]
    ensures multiset(s)[s[i]] >= 2
  {
    assert s == s[..i] + [s[i]] + s[i + 1..j] + [s[j]] + s[j + 1..];
  }

  lemma OnceEach(cfg: Config, s: seq<Entry>, k: nat)
    requires DistinctKeys(cfg, s) && k < |s|
    ensures multiset(s)[s[k]] == 1
  {
    assert s == s[..k] + [s[k]] + s[k + 1..];
    assert s[k] !in s[..k] && s[k] !in s[k + 1..];
  }

  // ---------------------------------------------------------------- the formatter

  /** The entries with the encoded keys they are ordered by. */
  function KeyEntries(cfg: Config, entries: seq<Entry>): seq<Keyed<Entry>> {
    if entries == [] then [] else [Keyed(cfg.encodeKey(entries[0].key), entries[0])] + KeyEntries(cfg, entries[1..])
  }

  function Items<T>(s: seq<Keyed<T>>): seq<T> {
    if s == [] then [] else [s[0].item] + Items(s[1..])
  }

  predicate IsKeyed(cfg: Config, x: Keyed<Entry>) {
    x.key == cfg.encodeKey(x.item.key)
  }

  lemma {:induction false} InsertedMembers<T>(x: Keyed<T>, s: seq<Keyed<T>>, y: Keyed<T>)
    requires y in Insert(x, s)
    ensures y == x || y in s
  {
    if s != [] && Before(s[0].key, x.key) && y != s[0] {
      InsertedMembers(x, s[1..], y);
    }
  }

  lemma {:induction false} SortedMembers<T>(s: seq<Keyed<T>>, y: Keyed<T>)
    requires y in Sort(s)
    ensures y in s
  {
    if s != [] {
      InsertedMembers(s[0], Sort(s[1..]), y);
      if y != s[0] {
        SortedMembers(s[1..], y);
      }
    }
  }

  lemma {:induction false} KeyedMembers(cfg: Config, entries: seq<Entry>, y: Keyed<Entry>)
    requires y in KeyEntries(cfg, entries)
    ensures IsKeyed(cfg, y) && y.item in entries
  {
    if entries != [] && y != KeyEntries(cfg, entries)[0] {
      KeyedMembers(cfg, entries[1..], y);
    }
  }

  lemma {:induction false} ItemMembers<T>(s: seq<Keyed<T>>, x: T) returns (y: Keyed<T>)
    requires x in Items(s)
    ensures y in s && y.item == x
  {
    if x == s[0].item {
      y := s[0];
    } else {
      y := ItemMembers(s[1..], x);
    }
  }

  /** What is sorted are the entries themselves. */
  lemma SortedEntries(cfg: Config, entries: seq<Entry>, x: Entry)
    requires x in Items(Sort(KeyEntries(cfg, entries)))
    ensures x in entries
  {
    var y := ItemMembers(Sort(KeyEntries(cfg, entries)), x);
    SortedMembers(KeyEntries(cfg, entries), y);
    KeyedMembers(cfg, entries, y);
  }

  lemma {:induction false} InsertedLines(cfg: Config, context: MapContext, x: Keyed<Entry>, s: seq<Keyed<Entry>>, depth: nat)
    requires IsKeyed(cfg, x) && forall y :: y in s ==> IsKeyed(cfg, y)
    ensures Lines(cfg, context, Items(Insert(x, s)), depth)
         == Insert(Keyed(x.key, RenderEntry(cfg, context, x.item, depth)), Lines(cfg, context, Items(s), depth))
  {
    if s != [] {
      assert IsKeyed(cfg, s[0]);
      var line := Keyed(s[0].key, RenderEntry(cfg, context, s[0].item, depth));
      assert Items(s)[1..] == Items(s[1..]);
      assert Lines(cfg, context, Items(s), depth)[1..] == Lines(cfg, context, Items(s[1..]), depth);
    }
    if s == [] || !Before(s[0].key, x.key) {
      assert ([x] + s)[1..] == s;
      assert ([x.item] + Items(s))[1..] == Items(s);
    } else {
      InsertedLines(cfg, context, x, s[1..], depth);
      assert ([s[0]] + Insert(x, s[1..]))[1..] == Insert(x, s[1..]);
      assert ([s[0].item] + Items(Insert(x, s[1..])))[1..] == Items(Insert(x, s[1..]));
    }
  }

  /** Sorting the entries and then printing them is printing them and then sorting the lines. */
  lemma {:induction false} SortedLines(cfg: Config, context: MapContext, entries: seq<Entry>, depth: nat)
    ensures Lines(cfg, context, Items(Sort(KeyEntries(cfg, entries))), depth) == Sort(Lines(cfg, context, entries, depth))
  {
    if entries != [] {
      var keyed := KeyEntries(cfg, entries);
      SortedLines(cfg, context, entries[1..], depth);
      assert keyed[1..] == KeyEntries(cfg, entries[1..]);
      forall y | y in Sort(keyed[1..]) ensures IsKeyed(cfg, y) {
        SortedMembers(keyed[1..], y);
        KeyedMembers(cfg, entries[1..], y);
      }
      InsertedLines(cfg, context, keyed[0], Sort(keyed[1..]), depth);
      assert Lines(cfg, context, entries, depth)[1..] == Lines(cfg, context, entries[1..], depth);
    }
  }

  lemma ExtendTwice(a: Rendered, b: Rendered, rest: Outcome)
    ensures Extend(a, Extend(b, rest)) == Extend(Rendered(a.notation + b.notation, a.redacted + b.redacted), rest)
  {
    if rest.Success? {
      Associate(a.notation, b.notation, rest.value.notation);
      Associate(a.redacted, b.redacted, rest.value.redacted);
    }
  }

  lemma ExtendUnit(a: Rendered, rest: Outcome)
    ensures Extend(Rendered("", []), rest) == rest
    ensures Extend(a, Success(Rendered("", []))) == Success(a)
  {
    assert a.notation + "" == a.notation && a.redacted + [] == a.redacted;
    if rest.Success? {
      assert "" + rest.value.notation == rest.value.notation && [] + rest.value.redacted == rest.value.redacted;
    }
  }

  lemma {:induction false} FieldSizes(fields: seq<FieldInfo>, i: nat)
    requires i < |fields|
    ensures TypeSize(fields[i].typ) < FieldsSize(fields)
  {
    if i > 0 {
      FieldSizes(fields[1..], i - 1);
    }
  }

  /** The number a sub-command field of the map decodes to, or zero. */
  function TopSubCommand(cfg: Config, v: Value, schema: Option<Type>, path: string): nat {
    if v.Map? && FieldsOf(cfg, schema, path).Success? then
      SubCommandOf(cfg, FieldsOf(cfg, schema, path).value, v.entries, 0)
    else 0
  }

  ghost predicate Shows(outcome: Outcome, r: Result<string, RenderError>, before: seq<string>, after: seq<string>) {
    match outcome
    case Failure(error) => r == Failure(error)
    case Success(s) => r == Success(s.notation) && after == before + s.redacted
  }

  class Formatter {
    const cfg: Config
    var redacted: seq<string>

    constructor (cfg: Config)
      ensures this.cfg == cfg && redacted == []
    {
      this.cfg := cfg;
      redacted := [];
    }

    method CollectFields(fields: seq<FieldInfo>, path: string, start: Fields) returns (r: Result<Fields, RenderError>)
      ensures r == Collect(cfg, fields, path, start)
      decreases FieldsSize(fields)
    {
      var result := start;
      var i := 0;
      while i < |fields|
        invariant 0 <= i <= |fields|
        invariant Collect(cfg, fields, path, start) == Collect(cfg, fields[i..], path, result)
      {
        var f := fields[i];
        FieldSizes(fields, i);
        IndirectSize(f.typ);
        assert fields[i..][1..] == fields[i + 1..];
        i := i + 1;
        if !f.exported || f.wireName == "-" {
          continue;
        }
        if f.anonymous && f.wireName == "" {
          var embedded := Indirect(f.typ);
          if embedded.Struct? {
            var now := CollectFields(embedded.fields, path, result);
            if now.Failure? {
              return now;
            }
            result := now.value;
          }
          continue;
        }
        if f.keyAsInt && f.wireNumber.None? {
          return Failure(InvalidIntegerTag);
        }
        var redact := Redacts(f.diagOptions);
        if redact.Failure? {
          return Failure(redact.error);
        }
        var name := if f.wireName == "" then f.goName else f.wireName;
        var key := cfg.encodeKey(if f.keyAsInt then IntegerKey(f.wireNumber.value) else TextKey(name));
        result := result[key := Field(f.diagName, f.goName, JoinPath(path, f.goName), f.typ, f.keyAsInt, redact.value)];
      }
      return Success(result);
    }

    method Render(v: Value, schema: Option<Type>, path: string, depth: nat)
      returns (r: Result<string, RenderError>, subCommand: nat)
      modifies this
      ensures Shows(RenderValue(cfg, v, schema, path, depth), r, old(redacted), redacted)
      ensures r.Success? ==> subCommand == TopSubCommand(cfg, v, schema, path)
      decreases v, 3
    {
      match v
      case Array(items) =>
        r := RenderArray(items, schema, path, depth);
        subCommand := 0;
      case Map(entries) =>
        r, subCommand := RenderMap(entries, schema, path, depth);
      case _ =>
        var notation := cfg.diagnose(v);
        r := if notation.Some? then Success(notation.value) else Failure(DiagnoseFailed);
        subCommand := 0;
    }

    method RenderArray(items: seq<Value>, schema: Option<Type>, path: string, depth: nat) returns (r: Result<string, RenderError>)
      modifies this
      ensures Shows(RenderValue(cfg, Array(items), schema, path, depth), r, old(redacted), redacted)
      decreases items, 2
    {
      var elem := CollectionElementType(schema);
      if items == [] {
        return Success("[]");
      }
      ghost var was := redacted;
      ghost var all := RenderItems(cfg, items, elem, path, depth);
      var body := "";
      ghost var added: seq<string> := [];
      var i := 0;
      assert items[0..] == items && was + [] == was;
      ExtendUnit(Rendered("", []), all);
      while i < |items|
        invariant 0 <= i <= |items|
        invariant redacted == was + added
        invariant all == Extend(Rendered(body, added), RenderItems(cfg, items[i..], elem, path, depth))
      {
        assert items[i..][1..] == items[i + 1..];
        var item, _ := Render(items[i], elem, path, depth + 1);
        if item.Failure? {
          return item;
        }
        ghost var shown := RenderValue(cfg, items[i], elem, path, depth + 1).value;
        var line := Indent(depth + 1) + item.value + (if i < |items| - 1 then ",\n" else "\n");
        ExtendTwice(Rendered(body, added), Rendered(line, shown.redacted), RenderItems(cfg, items[i + 1..], elem, path, depth));
        Associate(was, added, shown.redacted);
        body, added := body + line, added + shown.redacted;
        i := i + 1;
      }
      assert items[|items|..] == [];
      ExtendUnit(Rendered(body, added), all);
      return Success("[\n" + body + Indent(depth) + "]");
    }

    /** The value of one entry: redacted when its field is, rendered under its schema otherwise. */
    method RenderEntryValue(context: MapContext, entry: Entry, depth: nat) returns (r: Result<string, RenderError>)
      modifies this
      ensures Shows(RenderEntry(cfg, context, entry, depth), r, old(redacted), redacted)
      decreases entry, 3
    {
      var field := FieldFor(cfg, context.fields, entry.key);
      if BadName(field) {
        return Failure(InvalidName);
      }
      var keyNotation := cfg.diagnoseKey(cfg.encodeKey(entry.key));
      if keyNotation.None? {
        return Failure(DiagnoseFailed);
      }
      var childSchema := context.elem;
      if entry.key.TextKey? && (context.path, entry.key.text) in cfg.mapValueTypes {
        childSchema := Some(cfg.mapValueTypes[(context.path, entry.key.text)]);
      }
      if field.Some? {
        childSchema := Some(field.value.typ);
        if field.value.goName == "SubCommandParams" && context.subCommand in cfg.subCommandParams {
          childSchema := Some(cfg.subCommandParams[context.subCommand]);
        }
      }
      var head := Indent(depth + 1) + Comment(field) + keyNotation.value + ": ";
      if IsRedacted(field) {
        redacted := redacted + [field.value.path];
        return Success(head + RedactedNotation(entry.value, depth + 1));
      }
      var value, _ := Render(entry.value, childSchema, FieldPath(context.path, field), depth + 1);
      if value.Failure? {
        return value;
      }
      return Success(head + value.value);
    }

    method FieldsFor(schema: Option<Type>, path: string) returns (r: Result<Fields, RenderError>)
      ensures r == FieldsOf(cfg, schema, path)
    {
      var typ := IndirectOption(schema);
      if typ.Some? && typ.value.Struct? {
        r := CollectFields(typ.value.fields, path, map[]);
      } else {
        r := Success(map[]);
      }
    }

    method RenderMap(entries: seq<Entry>, schema: Option<Type>, path: string, depth: nat)
      returns (r: Result<string, RenderError>, subCommand: nat)
      modifies this
      ensures Shows(RenderValue(cfg, Map(entries), schema, path, depth), r, old(redacted), redacted)
      ensures r.Success? ==> subCommand == TopSubCommand(cfg, Map(entries), schema, path)
      decreases entries, 2
    {
      var fields := FieldsFor(schema, path);
      if fields.Failure? {
        return Failure(fields.error), 0;
      }
      subCommand := FindSubCommand(fields.value, entries);
      if entries == [] {
        return Success("{}"), subCommand;
      }
      var context := MapContext(fields.value, MapElementType(schema), path, subCommand);
      var sorted := Items(Sort(KeyEntries(cfg, entries)));
      forall x | x in sorted ensures x in entries {
        SortedEntries(cfg, entries, x);
      }
      SortedLines(cfg, context, entries, depth);
      var body := RenderSorted(context, sorted, entries, depth);
      if body.Failure? {
        return body, 0;
      }
      return Success("{\n" + body.value + Indent(depth) + "}"), subCommand;
    }

    /** The entries of a map, already sorted, one per line. */
    method RenderSorted(context: MapContext, sorted: seq<Entry>, ghost entries: seq<Entry>, depth: nat)
      returns (r: Result<string, RenderError>)
      requires forall x :: x in sorted ==> x in entries
      modifies this
      ensures Shows(Join(Lines(cfg, context, sorted, depth)), r, old(redacted), redacted)
      decreases entries, 1
    {
      ghost var was := redacted;
      ghost var all := Join(Lines(cfg, context, sorted, depth));
      var body := "";
      ghost var added: seq<string> := [];
      var i := 0;
      assert sorted[0..] == sorted && was + [] == was;
      ExtendUnit(Rendered("", []), all);
      while i < |sorted|
        invariant 0 <= i <= |sorted|
        invariant redacted == was + added
        invariant all == Extend(Rendered(body, added), Join(Lines(cfg, context, sorted[i..], depth)))
      {
        JoinFrom(cfg, context, sorted, depth, i);
        assert sorted[i] in entries;
        var shown := RenderEntryValue(context, sorted[i], depth);
        if shown.Failure? {
          return shown;
        }
        ghost var spec := RenderEntry(cfg, context, sorted[i], depth).value;
        var line := shown.value + (if i < |sorted| - 1 then ",\n" else "\n");
        ExtendTwice(Rendered(body, added), Rendered(line, spec.redacted), Join(Lines(cfg, context, sorted[i + 1..], depth)));
        Associate(was, added, spec.redacted);
        body, added := body + line, added + spec.redacted;
        i := i + 1;
      }
      assert sorted[|sorted|..] == [];
      ExtendUnit(Rendered(body, added), all);
      return Success(body);
    }

    method FindSubCommand(fields: Fields, entries: seq<Entry>) returns (subCommand: nat)
      ensures subCommand == SubCommandOf(cfg, fields, entries, 0)
    {
      subCommand := 0;
      var i := 0;
      while i < |entries|
        invariant 0 <= i <= |entries|
        invariant SubCommandOf(cfg, fields, entries, 0) == SubCommandOf(cfg, fields, entries[i..], subCommand)
      {
        assert entries[i..][1..] == entries[i + 1..];
        var n := cfg.decodeUnsigned(entries[i].value);
        if IsSubCommand(FieldFor(cfg, fields, entries[i].key)) && n.Some? {
          subCommand := n.value;
        }
        i := i + 1;
      }
    }
  }

  lemma JoinFrom(cfg: Config, context: MapContext, s: seq<Entry>, depth: nat, i: nat)
    requires i < |s|
    ensures Join(Lines(cfg, context, s[i..], depth)) ==
            (match RenderEntry(cfg, context, s[i], depth)
             case Failure(error) => Failure(error)
             case Success(first) =>
               Extend(Rendered(first.notation + Separator(|s| - i), first.redacted), Join(Lines(cfg, context, s[i + 1..], depth))))
  {
    assert s[i..][1..] == s[i + 1..];
    LinesAt(cfg, context, s[i..], depth);
    assert Lines(cfg, context, s[i..], depth)[1..] == Lines(cfg, context, s[i + 1..], depth);
  }
}
