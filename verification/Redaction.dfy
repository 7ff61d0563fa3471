/** What the diagnostic printer hides, told from the struct tags alone (client/diagnostic.go:147-449). */
module Redaction {
  import opened Bytes
  import opened Diagnostic

  // -------------------------------------------------------------------- from the tags

  /** The fields a struct has on the wire: exported, not "-", embedded structs in their place. */
  function Leaves(fields: seq<FieldInfo>): seq<FieldInfo>
    decreases FieldsSize(fields)
  {
    if fields == [] then []
    else
      var f := fields[0];
      IndirectSize(f.typ);
      (if !f.exported || f.wireName == "-" then []
       else if f.anonymous && f.wireName == "" then (if Indirect(f.typ).Struct? then Leaves(Indirect(f.typ).fields) else [])
       else [f])
      + Leaves(fields[1..])
  }

  /** The encoded key of a field: its integer, or its wire name, or else its Go name. */
  function WireKey(cfg: Config, f: FieldInfo): bytes {
    if f.keyAsInt && f.wireNumber.Some? then cfg.encodeKey(IntegerKey(f.wireNumber.value))
    else if f.wireName != "" then cfg.encodeKey(TextKey(f.wireName))
    else cfg.encodeKey(TextKey(f.goName))
  }

  /** The last field with this key. */
  function LastWith(cfg: Config, leaves: seq<FieldInfo>, key: bytes): Option<FieldInfo> {
    if leaves == [] then None
    else if WireKey(cfg, leaves[|leaves| - 1]) == key then Some(leaves[|leaves| - 1])
    else LastWith(cfg, leaves[..|leaves| - 1], key)
  }

  /** The struct field a map entry belongs to under this schema. */
  function Tagged(cfg: Config, schema: Option<Type>, key: Key): Option<FieldInfo> {
    match IndirectOption(schema)
    case Some(Struct(fields)) => LastWith(cfg, Leaves(fields), cfg.encodeKey(key))
    case _ => None
  }

  predicate HasRedactTag(f: Option<FieldInfo>) {
    f.Some? && "redact" in f.value.diagOptions
  }

  predicate TagsValid(leaves: seq<FieldInfo>) {
    forall f :: f in leaves ==>
      (f.keyAsInt ==> f.wireNumber.Some?) && forall o :: o in f.diagOptions ==> o == "" || o == "redact"
  }

  /** Pointers are looked through, and nothing else. */
  lemma IndirectExact(t: Type)
    ensures !Indirect(t).Pointer? && Indirect(Pointer(t)) == Indirect(t) && (!t.Pointer? ==> Indirect(t) == t)
    ensures CollectionElementType(Some(Pointer(t))) == CollectionElementType(Some(t))
    ensures CollectionElementType(Some(ListType(t))) == Some(t) && MapElementType(Some(MapType(t))) == Some(t)
    ensures CollectionElementType(Some(MapType(t))) == MapElementType(Some(ListType(t))) == None
    ensures CollectionElementType(None) == MapElementType(None) == None
  {}

  function FieldOf(f: FieldInfo, path: string): Field {
    Field(f.diagName, f.goName, if path == "" then f.goName else path + "." + f.goName, f.typ, f.keyAsInt,
          "redact" in f.diagOptions)
  }

  function Put(cfg: Config, leaves: seq<FieldInfo>, path: string, start: Fields): Fields {
    if leaves == [] then start
    else Put(cfg, leaves[1..], path, start[WireKey(cfg, leaves[0]) := FieldOf(leaves[0], path)])
  }

  lemma {:induction false} PutAppend(cfg: Config, a: seq<FieldInfo>, b: seq<FieldInfo>, path: string, start: Fields)
    ensures Put(cfg, a + b, path, start) == Put(cfg, b, path, Put(cfg, a, path, start))
  {
    if a == [] {
      assert a + b == b;
    } else {
      assert (a + b)[1..] == a[1..] + b;
      PutAppend(cfg, a[1..], b, path, start[WireKey(cfg, a[0]) := FieldOf(a[0], path)]);
    }
  }

  lemma {:induction false} PutLast(cfg: Config, leaves: seq<FieldInfo>, path: string, key: bytes)
    ensures key in Put(cfg, leaves, path, map[]) <==> LastWith(cfg, leaves, key).Some?
    ensures LastWith(cfg, leaves, key).Some? ==>
              Put(cfg, leaves, path, map[])[key] == FieldOf(LastWith(cfg, leaves, key).value, path)
  {
    if leaves != [] {
      var front, last := leaves[..|leaves| - 1], leaves[|leaves| - 1];
      assert leaves == front + [last];
      PutAppend(cfg, front, [last], path, map[]);
      PutLast(cfg, front, path, key);
      assert [last][1..] == [];
    }
  }

  /** What the options of one tag come to. */
  lemma RedactsExactly(options: seq<string>)
    ensures Redacts(options).Success? <==> forall o :: o in options ==> o == "" || o == "redact"
    ensures Redacts(options).Success? ==> (Redacts(options).value <==> "redact" in options)
    ensures Redacts(options).Failure? ==> Redacts(options).error == UnknownOption
  {}

  lemma {:induction false} CollectIsPut(cfg: Config, fields: seq<FieldInfo>, path: string, start: Fields)
    requires Collect(cfg, fields, path, start).Success?
    ensures Collect(cfg, fields, path, start).value == Put(cfg, Leaves(fields), path, start)
    ensures TagsValid(Leaves(fields))
    decreases FieldsSize(fields)
  {
    if fields != [] {
      var f, rest := fields[0], fields[1..];
      IndirectSize(f.typ);
      if !f.exported || f.wireName == "-" {
        CollectIsPut(cfg, rest, path, start);
        assert [] + Leaves(rest) == Leaves(rest);
      } else if f.anonymous && f.wireName == "" {
        if Indirect(f.typ).Struct? {
          var inner := Indirect(f.typ).fields;
          CollectIsPut(cfg, inner, path, start);
          var now := Collect(cfg, inner, path, start).value;
          CollectIsPut(cfg, rest, path, now);
          PutAppend(cfg, Leaves(inner), Leaves(rest), path, start);
        } else {
          CollectIsPut(cfg, rest, path, start);
          assert [] + Leaves(rest) == Leaves(rest);
        }
      } else {
        CollectOne(cfg, f, rest, path, start);
        CollectIsPut(cfg, rest, path, start[WireKey(cfg, f) := FieldOf(f, path)]);
        assert ([f] + Leaves(rest))[1..] == Leaves(rest);
      }
    }
  }

  lemma CollectOne(cfg: Config, f: FieldInfo, rest: seq<FieldInfo>, path: string, start: Fields)
    requires f.exported && f.wireName != "-" && !(f.anonymous && f.wireName == "")
    requires Collect(cfg, [f] + rest, path, start).Success?
    ensures TagsValid([f])
    ensures Collect(cfg, [f] + rest, path, start) == Collect(cfg, rest, path, start[WireKey(cfg, f) := FieldOf(f, path)])
  {
    assert ([f] + rest)[1..] == rest;
    RedactsExactly(f.diagOptions);
  }

  /** The printer's field for a key is the last wire field with that key, redacted exactly if its tag says
      so; there is none exactly if no wire field has that key. */
  lemma FieldsFromTags(cfg: Config, schema: Option<Type>, path: string, fields: Fields, key: Key)
    requires FieldsOf(cfg, schema, path) == Success(fields)
    ensures FieldFor(cfg, fields, key) ==
            (match Tagged(cfg, schema, key) case None => None case Some(f) => Some(FieldOf(f, path)))
    ensures IsRedacted(FieldFor(cfg, fields, key)) <==> HasRedactTag(Tagged(cfg, schema, key))
  {
    match IndirectOption(schema)
    case Some(Struct(infos)) =>
      CollectIsPut(cfg, infos, path, map[]);
      PutLast(cfg, Leaves(infos), path, cfg.encodeKey(key));
    case _ =>
  }

  /** The first wire field whose tags are wrong, and how: no integer where the tag asks for one, or else
      an option nobody knows. */
  function FirstBadTag(leaves: seq<FieldInfo>): Option<RenderError> {
    if leaves == [] then None
    else if leaves[0].keyAsInt && leaves[0].wireNumber.None? then Some(InvalidIntegerTag)
    else if exists o :: o in leaves[0].diagOptions && o !in {"", "redact"} then Some(UnknownOption)
    else FirstBadTag(leaves[1..])
  }

  lemma {:induction false} FirstBadAppend(a: seq<FieldInfo>, b: seq<FieldInfo>)
    ensures FirstBadTag(a + b) == if FirstBadTag(a).Some? then FirstBadTag(a) else FirstBadTag(b)
  {
    if a == [] {
      assert a + b == b;
    } else {
      assert (a + b)[1..] == a[1..] + b;
      FirstBadAppend(a[1..], b);
    }
  }

  /** Collecting fails exactly at a wire field with a bad tag, with what is wrong with the first. */
  lemma {:induction false} CollectFailsExactly(cfg: Config, fields: seq<FieldInfo>, path: string, start: Fields)
    ensures match Collect(cfg, fields, path, start)
            case Failure(error) => FirstBadTag(Leaves(fields)) == Some(error)
            case Success(_) => FirstBadTag(Leaves(fields)) == None
    decreases FieldsSize(fields)
  {
    if fields != [] {
      var f, rest := fields[0], fields[1..];
      IndirectSize(f.typ);
      if !f.exported || f.wireName == "-" || (f.anonymous && f.wireName == "" && !Indirect(f.typ).Struct?) {
        CollectFailsExactly(cfg, rest, path, start);
        assert [] + Leaves(rest) == Leaves(rest);
      } else if f.anonymous && f.wireName == "" {
        var inner := Indirect(f.typ).fields;
        CollectFailsExactly(cfg, inner, path, start);
        FirstBadAppend(Leaves(inner), Leaves(rest));
        if Collect(cfg, inner, path, start).Success? {
          CollectFailsExactly(cfg, rest, path, Collect(cfg, inner, path, start).value);
        }
      } else {
        FirstBadAppend([f], Leaves(rest));
        RedactsExactly(f.diagOptions);
        if FirstBadTag([f]).None? {
          CollectFailsExactly(cfg, rest, path, start[WireKey(cfg, f) := FieldOf(f, path)]);
        }
      }
    }
  }

  lemma {:induction false} GoodTags(leaves: seq<FieldInfo>)
    ensures FirstBadTag(leaves) == None <==> TagsValid(leaves)
  {
    if leaves != [] {
      GoodTags(leaves[1..]);
      assert leaves == [leaves[0]] + leaves[1..];
    }
  }

  predicate SchemaValid(schema: Option<Type>) {
    match IndirectOption(schema)
    case Some(Struct(fields)) => TagsValid(Leaves(fields))
    case _ => true
  }

  lemma FieldsNeedValidTags(cfg: Config, schema: Option<Type>, path: string)
    ensures FieldsOf(cfg, schema, path).Success? <==> SchemaValid(schema)
  {
    match IndirectOption(schema)
    case Some(Struct(fields)) =>
      CollectFailsExactly(cfg, fields, path, map[]);
      GoodTags(Leaves(fields));
    case _ =>
  }

  /** The schema of the value under a key: its field's type, or for SubCommandParams the one the
      sub-command selects; without a field a type given for that path and key, or the map's own. */
  function TagSchema(cfg: Config, schema: Option<Type>, path: string, key: Key, subCommand: nat): Option<Type> {
    var f := Tagged(cfg, schema, key);
    if f.Some? then
      Some(if f.value.goName == "SubCommandParams" && subCommand in cfg.subCommandParams
           then cfg.subCommandParams[subCommand] else f.value.typ)
    else if key.TextKey? && (path, key.text) in cfg.mapValueTypes then Some(cfg.mapValueTypes[(path, key.text)])
    else
      match IndirectOption(schema)
      case Some(MapType(elem)) => Some(elem)
      case _ => None
  }

  function TagPath(path: string, f: Option<FieldInfo>): string {
    if f.None? then path else if path == "" then f.value.goName else path + "." + f.value.goName
  }

  /** The number the last decodable sub-command entry holds, or zero. */
  function LastSubCommand(cfg: Config, schema: Option<Type>, entries: seq<Entry>): nat {
    if entries == [] then 0
    else
      var last := entries[|entries| - 1];
      var f := Tagged(cfg, schema, last.key);
      if f.Some? && f.value.goName == "SubCommand" && cfg.decodeUnsigned(last.value).Some? then cfg.decodeUnsigned(last.value).value
      else LastSubCommand(cfg, schema, entries[..|entries| - 1])
  }

  lemma {:induction false} SubCommandSnoc(cfg: Config, fields: Fields, entries: seq<Entry>, last: Entry, current: nat)
    ensures SubCommandOf(cfg, fields, entries + [last], current) ==
            if IsSubCommand(FieldFor(cfg, fields, last.key)) && cfg.decodeUnsigned(last.value).Some?
            then cfg.decodeUnsigned(last.value).value else SubCommandOf(cfg, fields, entries, current)
  {
    if entries == [] {
      assert entries + [last] == [last] && [last][1..] == [];
    } else {
      assert (entries + [last])[1..] == entries[1..] + [last];
      var n := cfg.decodeUnsigned(entries[0].value);
      SubCommandSnoc(cfg, fields, entries[1..], last,
                     if IsSubCommand(FieldFor(cfg, fields, entries[0].key)) && n.Some? then n.value else current);
    }
  }

  lemma {:induction false} SubCommandFromTags(cfg: Config, schema: Option<Type>, path: string, fields: Fields, entries: seq<Entry>)
    requires FieldsOf(cfg, schema, path) == Success(fields)
    ensures SubCommandOf(cfg, fields, entries, 0) == LastSubCommand(cfg, schema, entries)
  {
    if entries != [] {
      var front, last := entries[..|entries| - 1], entries[|entries| - 1];
      assert entries == front + [last];
      SubCommandSnoc(cfg, fields, front, last, 0);
      SubCommandFromTags(cfg, schema, path, fields, front);
      FieldsFromTags(cfg, schema, path, fields, last.key);
    }
  }

  /** The number a rendering reports: of a map the last decodable sub-command entry's, of anything else zero. */
  lemma ReportedSubCommand(cfg: Config, v: Value, schema: Option<Type>, path: string)
    requires v.Map? ==> SchemaValid(schema)
    ensures TopSubCommand(cfg, v, schema, path) == if v.Map? then LastSubCommand(cfg, schema, v.entries) else 0
  {
    if v.Map? {
      FieldsNeedValidTags(cfg, schema, path);
      SubCommandFromTags(cfg, schema, path, FieldsOf(cfg, schema, path).value, v.entries);
    }
  }

  /** Under one key, what the printer uses is what the tags say. */
  lemma EntryFromTags(cfg: Config, schema: Option<Type>, path: string, fields: Fields, entries: seq<Entry>, key: Key)
    requires FieldsOf(cfg, schema, path) == Success(fields)
    ensures var context, field := ContextOf(cfg, fields, schema, path, entries), FieldFor(cfg, fields, key);
            && SchemaIn(cfg, context, key) == TagSchema(cfg, schema, path, key, LastSubCommand(cfg, schema, entries))
            && FieldPath(path, field) == TagPath(path, Tagged(cfg, schema, key))
            && (IsRedacted(field) <==> HasRedactTag(Tagged(cfg, schema, key)))
            && (IsSubCommand(field) <==> Tagged(cfg, schema, key).Some? && Tagged(cfg, schema, key).value.goName == "SubCommand")
  {
    FieldsFromTags(cfg, schema, path, fields, key);
    SubCommandFromTags(cfg, schema, path, fields, entries);
  }

  // ------------------------------------------------------- the two theorems, from the tags

  /** The struct has at most one key for its sub-command, and that field is shown. */
  ghost predicate OneShownSubCommand(cfg: Config, schema: Option<Type>) {
    match IndirectOption(schema)
    case Some(Struct(fields)) =>
      var leaves := Leaves(fields);
      && (forall k, l :: IsSubCommandKey(cfg, leaves, k) && IsSubCommandKey(cfg, leaves, l) ==> k == l)
      && (forall k :: IsSubCommandKey(cfg, leaves, k) ==> !HasRedactTag(LastWith(cfg, leaves, k)))
    case _ => true
  }

  predicate IsSubCommandKey(cfg: Config, leaves: seq<FieldInfo>, key: bytes) {
    LastWith(cfg, leaves, key).Some? && LastWith(cfg, leaves, key).value.goName == "SubCommand"
  }

  /** The trees agree except under keys whose field has the redact tag, where only the shapes agree; map
      entries may be visited in any order in either. */
  ghost predicate AgreeUnredacted(cfg: Config, v: Value, w: Value, schema: Option<Type>, path: string)
    decreases v, 1
  {
    match v
    case Array(xs) =>
      w.Array? && |xs| == |w.items|
      && forall i :: 0 <= i < |xs| ==> AgreeUnredacted(cfg, xs[i], w.items[i], CollectionElementType(schema), path)
    case Map(xs) =>
      && w.Map? && SameKeys(cfg, xs, w.entries) && OneShownSubCommand(cfg, schema)
      && AgreeUnredactedEntries(cfg, xs, w.entries, schema, path, LastSubCommand(cfg, schema, xs))
    case _ => v == w
  }

  ghost predicate AgreeUnredactedEntries(cfg: Config, xs: seq<Entry>, ys: seq<Entry>, schema: Option<Type>, path: string, subCommand: nat)
    decreases xs, 0
  {
    forall i, j :: 0 <= i < |xs| && 0 <= j < |ys| && Matches(xs[i], ys[j]) ==>
      AgreeUnredactedEntry(cfg, xs[i], ys[j], schema, path, subCommand)
  }

  ghost predicate AgreeUnredactedEntry(cfg: Config, x: Entry, y: Entry, schema: Option<Type>, path: string, subCommand: nat)
    decreases x, 0
  {
    var f := Tagged(cfg, schema, x.key);
    if HasRedactTag(f) then ShapeOf(x.value) == ShapeOf(y.value)
    else AgreeUnredacted(cfg, x.value, y.value, TagSchema(cfg, schema, path, x.key, subCommand), TagPath(path, f))
  }

  lemma SubCommandConditions(cfg: Config, schema: Option<Type>, path: string, fields: Fields)
    requires FieldsOf(cfg, schema, path) == Success(fields) && OneShownSubCommand(cfg, schema)
    ensures OneSubCommand(fields) && SubCommandShown(fields)
  {
    match IndirectOption(schema)
    case Some(Struct(infos)) =>
      CollectIsPut(cfg, infos, path, map[]);
      forall k | k in fields && fields[k].goName == "SubCommand" ensures IsSubCommandKey(cfg, Leaves(infos), k) && !fields[k].redact {
        PutLast(cfg, Leaves(infos), path, k);
      }
    case _ =>
  }

  lemma {:induction false} AgreementFromTags(cfg: Config, v: Value, w: Value, schema: Option<Type>, path: string)
    requires AgreeUnredacted(cfg, v, w, schema, path)
    ensures Agree(cfg, v, w, schema, path)
    decreases v, 1
  {
    match v
    case Array(xs) =>
      forall i | 0 <= i < |xs| ensures Agree(cfg, xs[i], w.items[i], CollectionElementType(schema), path) {
        AgreementFromTags(cfg, xs[i], w.items[i], CollectionElementType(schema), path);
      }
    case Map(xs) =>
      if FieldsOf(cfg, schema, path).Success? {
        var fields := FieldsOf(cfg, schema, path).value;
        SubCommandConditions(cfg, schema, path, fields);
        EntryAgreementFromTags(cfg, xs, w.entries, schema, path, fields);
      }
    case _ =>
  }

  lemma {:induction false} EntryAgreementFromTags(cfg: Config, xs: seq<Entry>, ys: seq<Entry>,
                                                  schema: Option<Type>, path: string, fields: Fields)
    requires FieldsOf(cfg, schema, path) == Success(fields)
    requires AgreeUnredactedEntries(cfg, xs, ys, schema, path, LastSubCommand(cfg, schema, xs))
    ensures AgreeEntries(cfg, ContextOf(cfg, fields, schema, path, xs), xs, ys)
    decreases xs, 0
  {
    forall i, j | 0 <= i < |xs| && 0 <= j < |ys| && Matches(xs[i], ys[j])
      ensures AgreeEntry(cfg, ContextOf(cfg, fields, schema, path, xs), xs[i], ys[j])
    {
      assert AgreeUnredactedEntry(cfg, xs[i], ys[j], schema, path, LastSubCommand(cfg, schema, xs));
      PairAgreementFromTags(cfg, xs[i], ys[j], schema, path, fields, xs);
    }
  }

  lemma {:induction false} PairAgreementFromTags(cfg: Config, x: Entry, y: Entry, schema: Option<Type>, path: string,
                                                 fields: Fields, all: seq<Entry>)
    requires FieldsOf(cfg, schema, path) == Success(fields)
    requires AgreeUnredactedEntry(cfg, x, y, schema, path, LastSubCommand(cfg, schema, all))
    ensures AgreeEntry(cfg, ContextOf(cfg, fields, schema, path, all), x, y)
    decreases x, 0
  {
    var f := Tagged(cfg, schema, x.key);
    EntryFromTags(cfg, schema, path, fields, all, x.key);
    if !HasRedactTag(f) {
      AgreementFromTags(cfg, x.value, y.value, TagSchema(cfg, schema, path, x.key, LastSubCommand(cfg, schema, all)), TagPath(path, f));
    }
  }

  /** Redaction noninterference and independence of map order: trees that agree except under keys whose
      field has the redact tag render to the same notation and the same list of redacted fields, or fail
      alike. */
  lemma RenderingHidesRedacted(cfg: Config, v: Value, w: Value, schema: Option<Type>, path: string, depth: nat)
    requires ContainersAreNotNumbers(cfg) && AgreeUnredacted(cfg, v, w, schema, path)
    ensures RenderValue(cfg, v, schema, path, depth) == RenderValue(cfg, w, schema, path, depth)
  {
    AgreementFromTags(cfg, v, w, schema, path);
    AgreeingTreesRenderAlike(cfg, v, w, schema, path, depth);
  }

  // --------------------------------------------------------------- the redacted list

  /** The paths of the redacted fields in a tree, each as often as it occurs. */
  function RedactedPaths(cfg: Config, v: Value, schema: Option<Type>, path: string): multiset<string>
    decreases v, 2
  {
    match v
    case Array(items) => PathsOfItems(cfg, items, CollectionElementType(schema), path)
    case Map(entries) => PathsOfEntries(cfg, schema, path, LastSubCommand(cfg, schema, entries), entries)
    case _ => multiset{}
  }

  function PathsOfItems(cfg: Config, items: seq<Value>, schema: Option<Type>, path: string): multiset<string>
    decreases items, 0
  {
    if items == [] then multiset{}
    else RedactedPaths(cfg, items[0], schema, path) + PathsOfItems(cfg, items[1..], schema, path)
  }

  function PathsOfEntries(cfg: Config, schema: Option<Type>, path: string, subCommand: nat, entries: seq<Entry>): multiset<string>
    decreases entries, 0
  {
    if entries == [] then multiset{}
    else PathsOfEntry(cfg, schema, path, subCommand, entries[0]) + PathsOfEntries(cfg, schema, path, subCommand, entries[1..])
  }

  function PathsOfEntry(cfg: Config, schema: Option<Type>, path: string, subCommand: nat, entry: Entry): multiset<string>
    decreases entry, 0
  {
    var f := Tagged(cfg, schema, entry.key);
    if HasRedactTag(f) then multiset{TagPath(path, f)}
    else RedactedPaths(cfg, entry.value, TagSchema(cfg, schema, path, entry.key, subCommand), TagPath(path, f))
  }

  predicate AllSucceed(lines: seq<Keyed<Outcome>>) {
    lines == [] || (lines[0].item.Success? && AllSucceed(lines[1..]))
  }

  function PathsOfLines(lines: seq<Keyed<Outcome>>): multiset<string> {
    if lines == [] then multiset{}
    else (if lines[0].item.Success? then multiset(lines[0].item.value.redacted) else multiset{}) + PathsOfLines(lines[1..])
  }

  lemma {:induction false} InsertedPaths(x: Keyed<Outcome>, lines: seq<Keyed<Outcome>>)
    ensures AllSucceed(Insert(x, lines)) <==> x.item.Success? && AllSucceed(lines)
    ensures PathsOfLines(Insert(x, lines))
         == (if x.item.Success? then multiset(x.item.value.redacted) else multiset{}) + PathsOfLines(lines)
  {
    if lines == [] || !Before(lines[0].key, x.key) {
      assert ([x] + lines)[1..] == lines;
    } else {
      InsertedPaths(x, lines[1..]);
      assert ([lines[0]] + Insert(x, lines[1..]))[1..] == Insert(x, lines[1..]);
    }
  }

  lemma {:induction false} SortedPaths(lines: seq<Keyed<Outcome>>)
    ensures AllSucceed(Sort(lines)) <==> AllSucceed(lines)
    ensures PathsOfLines(Sort(lines)) == PathsOfLines(lines)
  {
    if lines != [] {
      SortedPaths(lines[1..]);
      InsertedPaths(lines[0], Sort(lines[1..]));
    }
  }

  lemma {:induction false} JoinedPaths(lines: seq<Keyed<Outcome>>)
    requires Join(lines).Success?
    ensures AllSucceed(lines) && multiset(Join(lines).value.redacted) == PathsOfLines(lines)
  {
    if lines != [] {
      JoinedPaths(lines[1..]);
    }
  }

  /** Nothing is forgotten and nothing reported twice: the redacted list of a rendering holds exactly
      the paths of the fields with the redact tag in the tree. */
  lemma {:induction false} RedactedListExact(cfg: Config, v: Value, schema: Option<Type>, path: string, depth: nat)
    requires RenderValue(cfg, v, schema, path, depth).Success?
    ensures multiset(RenderValue(cfg, v, schema, path, depth).value.redacted) == RedactedPaths(cfg, v, schema, path)
    decreases v, 2
  {
    match v
    case Array(items) =>
      if items != [] {
        ItemsListExact(cfg, items, CollectionElementType(schema), path, depth);
      }
    case Map(entries) =>
      if entries != [] {
        var fields := FieldsOf(cfg, schema, path).value;
        var lines := Lines(cfg, ContextOf(cfg, fields, schema, path, entries), entries, depth);
        JoinedPaths(Sort(lines));
        SortedPaths(lines);
        LinesListExact(cfg, schema, path, fields, entries, entries, depth);
      }
    case _ =>
  }

  lemma {:induction false} ItemsListExact(cfg: Config, items: seq<Value>, schema: Option<Type>, path: string, depth: nat)
    requires RenderItems(cfg, items, schema, path, depth).Success?
    ensures multiset(RenderItems(cfg, items, schema, path, depth).value.redacted) == PathsOfItems(cfg, items, schema, path)
    decreases items, 0
  {
    if items != [] {
      RedactedListExact(cfg, items[0], schema, path, depth + 1);
      ItemsListExact(cfg, items[1..], schema, path, depth);
    }
  }

  lemma {:induction false} LinesListExact(cfg: Config, schema: Option<Type>, path: string, fields: Fields,
                                          all: seq<Entry>, entries: seq<Entry>, depth: nat)
    requires FieldsOf(cfg, schema, path) == Success(fields)
    requires AllSucceed(Lines(cfg, ContextOf(cfg, fields, schema, path, all), entries, depth))
    ensures PathsOfLines(Lines(cfg, ContextOf(cfg, fields, schema, path, all), entries, depth))
         == PathsOfEntries(cfg, schema, path, LastSubCommand(cfg, schema, all), entries)
    decreases entries, 0
  {
    if entries != [] {
      var context := ContextOf(cfg, fields, schema, path, all);
      assert Lines(cfg, context, entries, depth)[1..] == Lines(cfg, context, entries[1..], depth);
      LinesListExact(cfg, schema, path, fields, all, entries[1..], depth);
      EntryListExact(cfg, schema, path, fields, all, entries[0], depth);
    }
  }

  lemma {:induction false} EntryListExact(cfg: Config, schema: Option<Type>, path: string, fields: Fields,
                                          all: seq<Entry>, entry: Entry, depth: nat)
    requires FieldsOf(cfg, schema, path) == Success(fields)
    requires RenderEntry(cfg, ContextOf(cfg, fields, schema, path, all), entry, depth).Success?
    ensures multiset(RenderEntry(cfg, ContextOf(cfg, fields, schema, path, all), entry, depth).value.redacted)
         == PathsOfEntry(cfg, schema, path, LastSubCommand(cfg, schema, all), entry)
    decreases entry, 0
  {
    var f := Tagged(cfg, schema, entry.key);
    EntryFromTags(cfg, schema, path, fields, all, entry.key);
    if HasRedactTag(f) {
      FieldsFromTags(cfg, schema, path, fields, entry.key);
    } else {
      RedactedListExact(cfg, entry.value, TagSchema(cfg, schema, path, entry.key, LastSubCommand(cfg, schema, all)),
                        TagPath(path, f), depth + 1);
    }
  }
}
