/** What the diagnostic printer shows: the text of arrays, maps and redacted values (client/diagnostic.go:95-347). */
module Notation {
  import opened Bytes
  import opened Diagnostic
  import opened Redaction

  /** Two spaces a level. */
  function Spaces(depth: nat): string {
    seq(2 * depth, _ => ' ')
  }

  lemma {:induction false} IndentIs(depth: nat)
    ensures Indent(depth) == Spaces(depth)
  {
    if depth > 0 {
      IndentIs(depth - 1);
      assert Spaces(depth) == "  " + Spaces(depth - 1);
    }
  }

  // ----------------------------------------------------------------- redacted values

  /** A redacted value keeps its major type and tag numbers and shows a placeholder for the rest, as the
      repository's own examples have it. */
  lemma RedactedPlaceholders(v: Value, depth: nat)
    ensures v.Unsigned? ==> RedactedNotation(v, depth) == "/[REDACTED]/ 0"
    ensures v.Negative? ==> RedactedNotation(v, depth) == "/[REDACTED]/ -1"
    ensures v.ByteString? ==> RedactedNotation(v, depth) == "h'/[REDACTED]/'"
    ensures v.Text? ==> RedactedNotation(v, depth) == "/[REDACTED]/ \"\""
    ensures v.Float? ==> RedactedNotation(v, depth) == "/[REDACTED]/ 0.0"
    ensures v.Simple? && v.code in {20, 21} ==> RedactedNotation(v, depth) == "/[REDACTED]/ false"
    ensures v.Simple? && v.code == 22 ==> RedactedNotation(v, depth) == "/[REDACTED]/ null"
    ensures v.Simple? && v.code == 23 ==> RedactedNotation(v, depth) == "/[REDACTED]/ undefined"
    ensures v.Simple? && v.code !in {20, 21, 22, 23} ==> RedactedNotation(v, depth) == "/[REDACTED]/ simple(0)"
    ensures v.Tag? ==> RedactedNotation(v, depth) == Decimal(v.number) + "(" + RedactedNotation(v.content, depth) + ")"
  {}

  lemma RedactedContainers(v: Value, depth: nat)
    ensures v.Array? ==> RedactedNotation(v, depth) == "[\n" + Spaces(depth + 1) + "/[REDACTED]/" + "\n" + Spaces(depth) + "]"
    ensures v.Map? ==> RedactedNotation(v, depth) == "{\n" + Spaces(depth + 1) + "/[REDACTED]/" + "\n" + Spaces(depth) + "}"
  {
    IndentIs(depth);
    IndentIs(depth + 1);
    assert "[" + "\n" == "[\n" && "{" + "\n" == "{\n";
  }

  /** The number a string of decimal digits denotes. */
  function Number(digits: string): int {
    if digits == [] then 0 else 10 * Number(digits[..|digits| - 1]) + (digits[|digits| - 1] as int - '0' as int)
  }

  lemma {:induction false} DecimalIs(n: nat)
    ensures Number(Decimal(n)) == n && Decimal(n) != []
    ensures forall c :: c in Decimal(n) ==> '0' <= c <= '9'
    ensures n > 0 ==> Decimal(n)[0] != '0'
  {
    if n < 10 {
      assert Decimal(n)[..0] == [];
    } else {
      DecimalIs(n / 10);
      var last := [('0' as int + n % 10) as char];
      assert Decimal(n) == Decimal(n / 10) + last && Decimal(n)[..|Decimal(n)| - 1] == Decimal(n / 10);
    }
  }

  // ---------------------------------------------------------------------- key order

  /** The first byte in which two keys of one length differ decides; a shorter key comes before. */
  ghost predicate KeyBefore(a: bytes, b: bytes) {
    || |a| < |b|
    || (|a| == |b| && exists k :: 0 <= k < |a| && a[..k] == b[..k] && a[k] < b[k])
  }

  lemma {:induction false} LexIs(a: bytes, b: bytes)
    requires |a| == |b|
    ensures LexBefore(a, b) <==> KeyBefore(a, b)
  {
    if a != [] {
      LexIs(a[1..], b[1..]);
      if k :| 0 <= k < |a| && a[..k] == b[..k] && a[k] < b[k] {
        if k > 0 {
          assert a[0] == a[..k][0] == b[..k][0] == b[0];
          assert a[1..][..k - 1] == a[..k][1..] == b[..k][1..] == b[1..][..k - 1];
          assert a[1..][k - 1] < b[1..][k - 1];
        }
      }
      if a[0] < b[0] {
        assert a[..0] == b[..0];
      } else if a[0] == b[0] && LexBefore(a[1..], b[1..]) {
        var k :| 0 <= k < |a[1..]| && a[1..][..k] == b[1..][..k] && a[1..][k] < b[1..][k];
        assert a[..k + 1] == [a[0]] + a[1..][..k] == [b[0]] + b[1..][..k] == b[..k + 1];
      }
    }
  }

  lemma BeforeIs(a: bytes, b: bytes)
    ensures Before(a, b) <==> KeyBefore(a, b)
  {
    if |a| == |b| {
      LexIs(a, b);
    }
  }

  // -------------------------------------------------------------------------- arrays

  function End(linesLeft: nat): string {
    if linesLeft == 0 then "\n" else ",\n"
  }

  /** The elements, one per indented line, all but the last with a comma. */
  function ArrayLines(values: seq<Rendered>, depth: nat): string {
    if values == [] then ""
    else Spaces(depth) + values[0].notation + End(|values| - 1) + ArrayLines(values[1..], depth)
  }

  function AllRedacted(values: seq<Rendered>): seq<string> {
    if values == [] then [] else values[0].redacted + AllRedacted(values[1..])
  }

  /** A rendered array is its elements' renderings, in order, between brackets. */
  lemma ArrayLayout(cfg: Config, items: seq<Value>, schema: Option<Type>, path: string, depth: nat) returns (values: seq<Rendered>)
    requires RenderValue(cfg, Array(items), schema, path, depth).Success?
    ensures |values| == |items|
    ensures forall i :: 0 <= i < |items| ==>
              RenderValue(cfg, items[i], CollectionElementType(schema), path, depth + 1) == Success(values[i])
    ensures RenderValue(cfg, Array(items), schema, path, depth).value ==
            Rendered(if items == [] then "[]" else "[\n" + ArrayLines(values, depth + 1) + Spaces(depth) + "]", AllRedacted(values))
  {
    if items == [] {
      values := [];
    } else {
      IndentIs(depth);
      values := ItemsLayout(cfg, items, CollectionElementType(schema), path, depth);
    }
  }

  lemma {:induction false} ItemsLayout(cfg: Config, items: seq<Value>, schema: Option<Type>, path: string, depth: nat)
    returns (values: seq<Rendered>)
    requires RenderItems(cfg, items, schema, path, depth).Success?
    ensures |values| == |items|
    ensures forall i :: 0 <= i < |items| ==> RenderValue(cfg, items[i], schema, path, depth + 1) == Success(values[i])
    ensures RenderItems(cfg, items, schema, path, depth).value == Rendered(ArrayLines(values, depth + 1), AllRedacted(values))
    decreases |items|
  {
    if items == [] {
      values := [];
    } else {
      var rest := ItemsLayout(cfg, items[1..], schema, path, depth);
      var first := RenderValue(cfg, items[0], schema, path, depth + 1).value;
      values := [first] + rest;
      IndentIs(depth + 1);
      assert values[1..] == rest;
      forall i | 0 <= i < |items| ensures RenderValue(cfg, items[i], schema, path, depth + 1) == Success(values[i]) {
        assert i > 0 ==> items[i] == items[1..][i - 1];
      }
    }
  }

  // ---------------------------------------------------------------------------- maps

  /** What stands behind the key: the value redacted, with its path reported, if its field has the tag,
      or rendered under the schema its field, path or map gives. */
  ghost predicate ValueRenders(cfg: Config, schema: Option<Type>, path: string, subCommand: nat, e: Entry, depth: nat, value: Rendered) {
    var f := Tagged(cfg, schema, e.key);
    if HasRedactTag(f) then value == Rendered(RedactedNotation(e.value, depth), [TagPath(path, f)])
    else RenderValue(cfg, e.value, TagSchema(cfg, schema, path, e.key, subCommand), TagPath(path, f), depth) == Success(value)
  }

  /** Integer keys are explained by their field's name, in a comment. */
  function FieldComment(f: Option<FieldInfo>): string {
    if f.Some? && f.value.keyAsInt then "/" + f.value.diagName + "/ " else ""
  }

  predicate KeyShown(cfg: Config, schema: Option<Type>, key: Key) {
    var f := Tagged(cfg, schema, key);
    cfg.diagnoseKey(cfg.encodeKey(key)).Some? && !(f.Some? && f.value.keyAsInt && '/' in f.value.diagName)
  }

  function KeyText(cfg: Config, schema: Option<Type>, key: Key): string
    requires KeyShown(cfg, schema, key)
  {
    FieldComment(Tagged(cfg, schema, key)) + cfg.diagnoseKey(cfg.encodeKey(key)).value + ": "
  }

  /** The entries, one per indented line, all but the last with a comma. */
  function MapLines(cfg: Config, schema: Option<Type>, order: seq<Entry>, values: seq<Rendered>, depth: nat): string
    requires |order| == |values| && forall e :: e in order ==> KeyShown(cfg, schema, e.key)
  {
    if order == [] then ""
    else
      Spaces(depth) + KeyText(cfg, schema, order[0].key) + values[0].notation + End(|order| - 1)
      + MapLines(cfg, schema, order[1..], values[1..], depth)
  }

  ghost predicate InKeyOrder(cfg: Config, order: seq<Entry>) {
    forall i, j :: 0 <= i < j < |order| ==> KeyBefore(cfg.encodeKey(order[i].key), cfg.encodeKey(order[j].key))
  }

  lemma {:induction false} InsertKeepsAll<T>(x: Keyed<T>, s: seq<Keyed<T>>)
    ensures multiset(Items(Insert(x, s))) == multiset{x.item} + multiset(Items(s))
  {
    if s != [] && Before(s[0].key, x.key) {
      InsertKeepsAll(x, s[1..]);
      assert ([s[0]] + Insert(x, s[1..]))[1..] == Insert(x, s[1..]);
    } else {
      assert ([x] + s)[1..] == s;
    }
  }

  lemma {:induction false} SortKeepsAll<T>(s: seq<Keyed<T>>)
    ensures multiset(Items(Sort(s))) == multiset(Items(s))
  {
    if s != [] {
      SortKeepsAll(s[1..]);
      InsertKeepsAll(s[0], Sort(s[1..]));
    }
  }

  lemma {:induction false} KeyedItems(cfg: Config, entries: seq<Entry>)
    ensures Items(KeyEntries(cfg, entries)) == entries
  {
    if entries != [] {
      KeyedItems(cfg, entries[1..]);
      assert KeyEntries(cfg, entries)[1..] == KeyEntries(cfg, entries[1..]);
    }
  }

  lemma {:induction false} KeyedAt(cfg: Config, entries: seq<Entry>, i: nat)
    ensures |KeyEntries(cfg, entries)| == |entries|
    ensures i < |entries| ==> KeyEntries(cfg, entries)[i].key == cfg.encodeKey(entries[i].key)
  {
    if entries != [] {
      KeyedAt(cfg, entries[1..], if i > 0 then i - 1 else 0);
    }
  }

  lemma {:induction false} ItemsAt<T>(s: seq<Keyed<T>>)
    ensures |Items(s)| == |s| && forall i :: 0 <= i < |s| ==> Items(s)[i] == s[i].item
  {
    if s != [] {
      ItemsAt(s[1..]);
    }
  }

  /** The order the printer puts the entries in. */
  lemma PrintedOrder(cfg: Config, entries: seq<Entry>) returns (order: seq<Entry>)
    requires DistinctKeys(cfg, entries)
    ensures order == Items(Sort(KeyEntries(cfg, entries)))
    ensures multiset(order) == multiset(entries) && InKeyOrder(cfg, order)
  {
    var keyed := KeyEntries(cfg, entries);
    order := Items(Sort(keyed));
    KeyedItems(cfg, entries);
    SortKeepsAll(keyed);
    KeyedAt(cfg, entries, 0);
    forall i, j | 0 <= i < j < |keyed| ensures keyed[i].key != keyed[j].key {
      KeyedAt(cfg, entries, i);
      KeyedAt(cfg, entries, j);
    }
    SortSorts(keyed);
    ItemsAt(Sort(keyed));
    forall i, j | 0 <= i < j < |order| ensures KeyBefore(cfg.encodeKey(order[i].key), cfg.encodeKey(order[j].key)) {
      SortedMembers(keyed, Sort(keyed)[i]);
      SortedMembers(keyed, Sort(keyed)[j]);
      KeyedMembers(cfg, entries, Sort(keyed)[i]);
      KeyedMembers(cfg, entries, Sort(keyed)[j]);
      BeforeIs(Sort(keyed)[i].key, Sort(keyed)[j].key);
    }
  }

  lemma EntryLayout(cfg: Config, schema: Option<Type>, path: string, fields: Fields, all: seq<Entry>, e: Entry, depth: nat)
    returns (value: Rendered)
    requires FieldsOf(cfg, schema, path) == Success(fields)
    requires RenderEntry(cfg, ContextOf(cfg, fields, schema, path, all), e, depth).Success?
    ensures KeyShown(cfg, schema, e.key)
    ensures ValueRenders(cfg, schema, path, LastSubCommand(cfg, schema, all), e, depth + 1, value)
    ensures RenderEntry(cfg, ContextOf(cfg, fields, schema, path, all), e, depth).value ==
            Rendered(Spaces(depth + 1) + KeyText(cfg, schema, e.key) + value.notation, value.redacted)
  {
    EntryFromTags(cfg, schema, path, fields, all, e.key);
    FieldsFromTags(cfg, schema, path, fields, e.key);
    IndentIs(depth + 1);
    var f := Tagged(cfg, schema, e.key);
    value := if HasRedactTag(f) then Rendered(RedactedNotation(e.value, depth + 1), [TagPath(path, f)])
             else RenderValue(cfg, e.value, TagSchema(cfg, schema, path, e.key, LastSubCommand(cfg, schema, all)),
                              TagPath(path, f), depth + 1).value;
    Regroup(Spaces(depth + 1), FieldComment(f), cfg.diagnoseKey(cfg.encodeKey(e.key)).value, ": ");
  }

  lemma Regroup(a: string, b: string, c: string, d: string)
    ensures a + b + c + d == a + (b + c + d)
  {}

  lemma {:induction false} LinesLayout(cfg: Config, schema: Option<Type>, path: string, fields: Fields,
                                       all: seq<Entry>, order: seq<Entry>, depth: nat)
    returns (values: seq<Rendered>)
    requires FieldsOf(cfg, schema, path) == Success(fields)
    requires Join(Lines(cfg, ContextOf(cfg, fields, schema, path, all), order, depth)).Success?
    ensures |values| == |order| && forall e :: e in order ==> KeyShown(cfg, schema, e.key)
    ensures forall i :: 0 <= i < |order| ==>
              ValueRenders(cfg, schema, path, LastSubCommand(cfg, schema, all), order[i], depth + 1, values[i])
    ensures Join(Lines(cfg, ContextOf(cfg, fields, schema, path, all), order, depth)).value
         == Rendered(MapLines(cfg, schema, order, values, depth + 1), AllRedacted(values))
    decreases |order|
  {
    if order == [] {
      values := [];
    } else {
      var context := ContextOf(cfg, fields, schema, path, all);
      assert order[0..] == order;
      JoinFrom(cfg, context, order, depth, 0);
      var rest := LinesLayout(cfg, schema, path, fields, all, order[1..], depth);
      var first := EntryLayout(cfg, schema, path, fields, all, order[0], depth);
      values := [first] + rest;
      assert values[1..] == rest;
      forall i | 0 <= i < |order| ensures KeyShown(cfg, schema, order[i].key)
          && ValueRenders(cfg, schema, path, LastSubCommand(cfg, schema, all), order[i], depth + 1, values[i]) {
        assert i > 0 ==> order[i] == order[1..][i - 1] && order[i] in order[1..];
      }
    }
  }

  /** A rendered map is all its entries, each once, in key order between braces: comment, key, and the
      value as its field's tag has it. */
  lemma MapLayout(cfg: Config, entries: seq<Entry>, schema: Option<Type>, path: string, depth: nat)
    returns (order: seq<Entry>, values: seq<Rendered>)
    requires DistinctKeys(cfg, entries) && RenderValue(cfg, Map(entries), schema, path, depth).Success?
    ensures multiset(order) == multiset(entries) && InKeyOrder(cfg, order) && |values| == |order|
    ensures forall e :: e in order ==> KeyShown(cfg, schema, e.key)
    ensures forall i :: 0 <= i < |order| ==>
              ValueRenders(cfg, schema, path, LastSubCommand(cfg, schema, entries), order[i], depth + 1, values[i])
    ensures RenderValue(cfg, Map(entries), schema, path, depth).value ==
            Rendered(if entries == [] then "{}" else "{\n" + MapLines(cfg, schema, order, values, depth + 1) + Spaces(depth) + "}",
                     AllRedacted(values))
  {
    var fields := FieldsOf(cfg, schema, path).value;
    order := PrintedOrder(cfg, entries);
    if entries == [] {
      values := [];
    } else {
      SortedLines(cfg, ContextOf(cfg, fields, schema, path, entries), entries, depth);
      values := LinesLayout(cfg, schema, path, fields, entries, order, depth);
      IndentIs(depth);
    }
  }

  // ------------------------------------------------------------------ what can be printed

  /** Every struct met has valid tags, every key has a notation and a name fit for a comment, and every
      value that is not redacted can be printed. */
  predicate Printable(cfg: Config, v: Value, schema: Option<Type>, path: string)
    decreases v, 1
  {
    match v
    case Array(items) => forall i :: 0 <= i < |items| ==> Printable(cfg, items[i], CollectionElementType(schema), path)
    case Map(entries) =>
      SchemaValid(schema)
      && forall i :: 0 <= i < |entries| ==>
           PrintableEntry(cfg, entries[i], schema, path, LastSubCommand(cfg, schema, entries))
    case _ => cfg.diagnose(v).Some?
  }

  predicate PrintableEntry(cfg: Config, e: Entry, schema: Option<Type>, path: string, subCommand: nat)
    decreases e, 0
  {
    var f := Tagged(cfg, schema, e.key);
    KeyShown(cfg, schema, e.key)
    && (HasRedactTag(f) || Printable(cfg, e.value, TagSchema(cfg, schema, path, e.key, subCommand), TagPath(path, f)))
  }

  /** A value is printed exactly when it is printable; how deep it stands does not matter. */
  lemma {:induction false} PrintsExactly(cfg: Config, v: Value, schema: Option<Type>, path: string, depth: nat)
    ensures RenderValue(cfg, v, schema, path, depth).Success? <==> Printable(cfg, v, schema, path)
    decreases v, 1
  {
    match v
    case Array(items) => ItemsPrint(cfg, items, CollectionElementType(schema), path, depth);
    case Map(entries) =>
      FieldsNeedValidTags(cfg, schema, path);
      if SchemaValid(schema) && entries != [] {
        var fields := FieldsOf(cfg, schema, path).value;
        var lines := Lines(cfg, ContextOf(cfg, fields, schema, path, entries), entries, depth);
        SortedPaths(lines);
        JoinsExactly(Sort(lines));
        LinesPrint(cfg, schema, path, fields, entries, entries, depth);
      }
    case _ =>
  }

  lemma {:induction false} ItemsPrint(cfg: Config, items: seq<Value>, schema: Option<Type>, path: string, depth: nat)
    ensures RenderItems(cfg, items, schema, path, depth).Success?
       <==> forall i :: 0 <= i < |items| ==> Printable(cfg, items[i], schema, path)
    decreases items, 0
  {
    if items != [] {
      PrintsExactly(cfg, items[0], schema, path, depth + 1);
      ItemsPrint(cfg, items[1..], schema, path, depth);
      assert forall i :: 0 < i < |items| ==> items[i] == items[1..][i - 1];
    }
  }

  /** The first line that failed, if any, is the one reported. */
  lemma {:induction false} JoinsExactly(lines: seq<Keyed<Outcome>>)
    ensures Join(lines).Success? <==> AllSucceed(lines)
    ensures forall k :: 0 <= k < |lines| && lines[k].item.Failure? && AllSucceed(lines[..k]) ==>
              Join(lines) == Failure(lines[k].item.error)
  {
    if lines != [] {
      JoinsExactly(lines[1..]);
      forall k | 0 < k < |lines| && lines[k].item.Failure? && AllSucceed(lines[..k])
        ensures Join(lines) == Failure(lines[k].item.error)
      {
        assert lines[..k][1..] == lines[1..][..k - 1] && lines[1..][k - 1] == lines[k];
      }
    }
  }

  lemma {:induction false} LinesPrint(cfg: Config, schema: Option<Type>, path: string, fields: Fields,
                                      all: seq<Entry>, entries: seq<Entry>, depth: nat)
    requires FieldsOf(cfg, schema, path) == Success(fields)
    ensures AllSucceed(Lines(cfg, ContextOf(cfg, fields, schema, path, all), entries, depth))
       <==> forall i :: 0 <= i < |entries| ==>
              PrintableEntry(cfg, entries[i], schema, path, LastSubCommand(cfg, schema, all))
    decreases entries, 0
  {
    if entries != [] {
      var context := ContextOf(cfg, fields, schema, path, all);
      assert Lines(cfg, context, entries, depth)[1..] == Lines(cfg, context, entries[1..], depth);
      LinesPrint(cfg, schema, path, fields, all, entries[1..], depth);
      EntryPrints(cfg, schema, path, fields, all, entries[0], depth);
      assert forall i :: 0 < i < |entries| ==> entries[i] == entries[1..][i - 1];
    }
  }

  lemma {:induction false} EntryPrints(cfg: Config, schema: Option<Type>, path: string, fields: Fields,
                                       all: seq<Entry>, e: Entry, depth: nat)
    requires FieldsOf(cfg, schema, path) == Success(fields)
    ensures RenderEntry(cfg, ContextOf(cfg, fields, schema, path, all), e, depth).Success?
       <==> PrintableEntry(cfg, e, schema, path, LastSubCommand(cfg, schema, all))
    decreases e, 0
  {
    var f := Tagged(cfg, schema, e.key);
    EntryFromTags(cfg, schema, path, fields, all, e.key);
    FieldsFromTags(cfg, schema, path, fields, e.key);
    if !HasRedactTag(f) {
      PrintsExactly(cfg, e.value, TagSchema(cfg, schema, path, e.key, LastSubCommand(cfg, schema, all)), TagPath(path, f), depth + 1);
    }
  }

  /** What an entry that cannot be printed reports: its name, its key, or what its value reports. */
  lemma EntryError(cfg: Config, schema: Option<Type>, path: string, fields: Fields, all: seq<Entry>, e: Entry, depth: nat)
    requires FieldsOf(cfg, schema, path) == Success(fields)
    ensures var r, f := RenderEntry(cfg, ContextOf(cfg, fields, schema, path, all), e, depth), Tagged(cfg, schema, e.key);
            && (f.Some? && f.value.keyAsInt && '/' in f.value.diagName ==> r == Failure(InvalidName))
            && (KeyShown(cfg, schema, e.key) && !HasRedactTag(f) ==>
                  var value := RenderValue(cfg, e.value, TagSchema(cfg, schema, path, e.key, LastSubCommand(cfg, schema, all)),
                                           TagPath(path, f), depth + 1);
                  value.Failure? ==> r == value)
            && (!KeyShown(cfg, schema, e.key) && !(f.Some? && f.value.keyAsInt && '/' in f.value.diagName) ==>
                  r == Failure(DiagnoseFailed))
  {
    EntryFromTags(cfg, schema, path, fields, all, e.key);
    FieldsFromTags(cfg, schema, path, fields, e.key);
  }

  /** Anything else is left to the CBOR library's own notation. */
  lemma ScalarLayout(cfg: Config, v: Value, schema: Option<Type>, path: string, depth: nat)
    requires !v.Array? && !v.Map?
    ensures RenderValue(cfg, v, schema, path, depth) ==
            if cfg.diagnose(v).Some? then Success(Rendered(cfg.diagnose(v).value, [])) else Failure(DiagnoseFailed)
  {}
}
