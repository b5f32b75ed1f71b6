/** structuralCatalogFingerprint: the byte string that is fed to the hash, and why two different structures
    never produce the same one. */
module CatalogFingerprint {
  import opened Collections
  import opened Decimal
  import opened Text

  // ---- The structural projection of a catalog ------------------------------------------------------

  datatype Column = Column(name: string, ordinal: int, dataType: string, nullable: bool, hasDefault: bool)
  datatype TableIndex = TableIndex(name: string, definition: string, unique: bool, primary: bool)
  datatype Constraint = Constraint(name: string, kind: string, definition: string)
  datatype Table = Table(schema: string, name: string, kind: string, owner: string,
                         columns: seq<Column>, indexes: seq<TableIndex>, constraints: seq<Constraint>)
  datatype Function = Function(schema: string, name: string, owner: string, language: string,
    arguments: string, result: string)
  datatype Setting = Setting(name: string, value: string, unit: string, context: string, source: string)
  datatype Extension = Extension(name: string, version: string)
  datatype Schema = Schema(name: string, owner: string)
  datatype Sequence = Sequence(schema: string, name: string, owner: string)
  datatype Trigger = Trigger(schema: string, table: string, name: string, function_: string,
    enabled: string, definition: string)
  datatype Partition = Partition(parentSchema: string, parentTable: string, childSchema: string, childTable: string)
  datatype Policy = Policy(schema: string, table: string, name: string, command: string, roles: seq<string>,
                           using_: string, check: string)
  datatype Enum = Enum(schema: string, name: string, values: seq<string>)

  datatype Catalog = Catalog(tables: seq<Table>, functions: seq<Function>, settings: seq<Setting>,
                             extensions: seq<Extension>, schemas: seq<Schema>, sequences: seq<Sequence>,
                             triggers: seq<Trigger>, partitions: seq<Partition>, policies: seq<Policy>, enums: seq<Enum>)

  // ---- Records and their bytes ---------------------------------------------------------------------

  /** One argument of `write`, as fmt.Fprint receives it. */
  datatype Value = S(text: string) | N(number: int) | B(flag: bool) | L(items: seq<string>)

  /** One call of `write`. A table's record carries its head only. */
  datatype Item =
    | TableItem(schema: string, name: string, kind: string, owner: string)
    | ColumnItem(column: Column)
    | IndexItem(index: TableIndex)
    | ConstraintItem(constraint: Constraint)
    | FunctionItem(function_: Function)
    | SettingItem(setting: Setting)
    | ExtensionItem(extension: Extension)
    | SchemaItem(schema_: Schema)
    | SequenceItem(sequence: Sequence)
    | TriggerItem(trigger: Trigger)
    | PartitionItem(partition: Partition)
    | PolicyItem(policy: Policy)
    | EnumItem(enum: Enum)

  function Values(item: Item): seq<Value> {
    match item
    case TableItem(schema, name, kind, owner) => [S("table"), S(schema), S(name), S(kind), S(owner)]
    case ColumnItem(c) => [S("column"), S(c.name), N(c.ordinal), S(c.dataType), B(c.nullable), B(c.hasDefault)]
    case IndexItem(x) => [S("index"), S(x.name), S(x.definition), B(x.unique), B(x.primary)]
    case ConstraintItem(c) => [S("constraint"), S(c.name), S(c.kind), S(c.definition)]
    case FunctionItem(f) => [S("function"), S(f.schema), S(f.name), S(f.owner), S(f.language), S(f.arguments), S(f.result)]
    case SettingItem(s) => [S("setting"), S(s.name), S(s.value), S(s.unit), S(s.context), S(s.source)]
    case ExtensionItem(e) => [S("extension"), S(e.name), S(e.version)]
    case SchemaItem(s) => [S("schema"), S(s.name), S(s.owner)]
    case SequenceItem(s) => [S("sequence"), S(s.schema), S(s.name), S(s.owner)]
    case TriggerItem(t) => [S("trigger"), S(t.schema), S(t.table), S(t.name), S(t.function_), S(t.enabled), S(t.definition)]
    case PartitionItem(p) => [S("partition"), S(p.parentSchema), S(p.parentTable), S(p.childSchema), S(p.childTable)]
    case PolicyItem(p) => [S("policy"), S(p.schema), S(p.table), S(p.name), S(p.command), L(p.roles), S(p.using_), S(p.check)]
    case EnumItem(e) => [S("enum"), S(e.schema), S(e.name), L(e.values)]
  }

  const US: char := '\U{1F}'
  const RS: char := '\U{1E}'

  function Signed(n: int): string {
    if n < 0 then "-" + Numeral(-n) else Numeral(n)
  }

  /** What fmt.Fprint writes for one value. */
  function Print(v: Value): string {
    match v
    case S(text) => text
    case N(number) => Signed(number)
    case B(flag) => if flag then "true" else "false"
    case L(items) => "[" + Join(items, ' ') + "]"
  }

  /** One record: each value and a unit separator, then a record separator. */
  function Record(values: seq<Value>): string {
    if values == [] then [RS] else Print(values[0]) + [US] + Record(values[1..])
  }

  function Bytes(items: seq<Item>): string {
    if items == [] then [] else Record(Values(items[0])) + Bytes(items[1..])
  }

  // ---- The items of a catalog, in the order they are written ---------------------------------------

  function Map<T>(f: T -> Item, xs: seq<T>): (items: seq<Item>)
    ensures |items| == |xs| && forall i | 0 <= i < |xs| :: items[i] == f(xs[i])
  {
    if xs == [] then [] else Map(f, xs[..|xs| - 1]) + [f(xs[|xs| - 1])]
  }

  function AsColumn(c: Column): Item { ColumnItem(c) }
  function AsIndex(x: TableIndex): Item { IndexItem(x) }
  function AsConstraint(c: Constraint): Item { ConstraintItem(c) }
  function AsFunction(f: Function): Item { FunctionItem(f) }
  function AsSetting(s: Setting): Item { SettingItem(s) }
  function AsExtension(e: Extension): Item { ExtensionItem(e) }
  function AsSchema(s: Schema): Item { SchemaItem(s) }
  function AsSequence(s: Sequence): Item { SequenceItem(s) }
  function AsTrigger(t: Trigger): Item { TriggerItem(t) }
  function AsPartition(p: Partition): Item { PartitionItem(p) }
  function AsPolicy(p: Policy): Item { PolicyItem(p) }
  function AsEnum(e: Enum): Item { EnumItem(e) }

  function Head(t: Table): Item { TableItem(t.schema, t.name, t.kind, t.owner) }

  function Body(t: Table): seq<Item> {
    Map(AsColumn, t.columns) + (Map(AsIndex, t.indexes) + Map(AsConstraint, t.constraints))
  }

  function TableItems(t: Table): seq<Item> { [Head(t)] + Body(t) }

  function TablesItems(tables: seq<Table>): seq<Item> {
    if tables == [] then [] else TablesItems(tables[..|tables| - 1]) + TableItems(tables[|tables| - 1])
  }

  /** The place of an item among the sections. */
  function Rank(item: Item): (rank: nat)
    ensures rank <= 12
  {
    match item
    case TableItem(_, _, _, _) => 0 case ColumnItem(_) => 1 case IndexItem(_) => 2 case ConstraintItem(_) => 3
    case FunctionItem(_) => 4 case SettingItem(_) => 5 case ExtensionItem(_) => 6 case SchemaItem(_) => 7
    case SequenceItem(_) => 8 case TriggerItem(_) => 9 case PartitionItem(_) => 10 case PolicyItem(_) => 11
    case EnumItem(_) => 12
  }

  // What is written from a section on.

  function FromEnums(c: Catalog): seq<Item> { Map(AsEnum, c.enums) }
  function FromPolicies(c: Catalog): seq<Item> { Map(AsPolicy, c.policies) + FromEnums(c) }
  function FromPartitions(c: Catalog): seq<Item> { Map(AsPartition, c.partitions) + FromPolicies(c) }
  function FromTriggers(c: Catalog): seq<Item> { Map(AsTrigger, c.triggers) + FromPartitions(c) }
  function FromSequences(c: Catalog): seq<Item> { Map(AsSequence, c.sequences) + FromTriggers(c) }
  function FromSchemas(c: Catalog): seq<Item> { Map(AsSchema, c.schemas) + FromSequences(c) }
  function FromExtensions(c: Catalog): seq<Item> { Map(AsExtension, c.extensions) + FromSchemas(c) }
  function FromSettings(c: Catalog): seq<Item> { Map(AsSetting, c.settings) + FromExtensions(c) }
  function FromFunctions(c: Catalog): seq<Item> { Map(AsFunction, c.functions) + FromSettings(c) }
  function Items(c: Catalog): seq<Item> { TablesItems(c.tables) + FromFunctions(c) }

  // ---- Writing -------------------------------------------------------------------------------------

  lemma {:induction false} BytesOfSum(a: seq<Item>, b: seq<Item>)
    ensures Bytes(a + b) == Bytes(a) + Bytes(b)
  {
    if a == [] {
      assert a + b == b;
    } else {
      assert (a + b)[1..] == a[1..] + b;
      BytesOfSum(a[1..], b);
    }
  }

  lemma BytesOfOne(item: Item)
    ensures Bytes([item]) == Record(Values(item))
  {
  }

  /** `write`: the bytes of one record, value by value. */
  method Write(hash: string, values: seq<Value>) returns (longer: string)
    ensures longer == hash + Record(values)
  {
    longer := hash;
    var i := 0;
    while i < |values|
      invariant 0 <= i <= |values|
      invariant longer + Record(values[i..]) == hash + Record(values)
    {
      assert values[i..][1..] == values[i + 1..];
      longer := longer + Print(values[i]) + [US];
      i := i + 1;
    }
    longer := longer + [RS];
  }

  /** One of the loops over a section. */
  method WriteAll<T>(hash: string, f: T -> Item, xs: seq<T>) returns (longer: string)
    ensures longer == hash + Bytes(Map(f, xs))
  {
    hide Record, Values;
    longer := hash;
    for i := 0 to |xs|
      invariant longer == hash + Bytes(Map(f, xs[..i]))
    {
      assert xs[..i + 1][..i] == xs[..i];
      OneMore(f, xs[..i], xs[i], hash);
      assert xs[..i + 1] == xs[..i] + [xs[i]];
      longer := Write(longer, Values(f(xs[i])));
    }
    assert xs[..|xs|] == xs;
  }

  lemma OneMore<T>(f: T -> Item, xs: seq<T>, x: T, hash: string)
    ensures hash + Bytes(Map(f, xs + [x])) == hash + Bytes(Map(f, xs)) + Record(Values(f(x)))
  {
    hide Record, Values;
    assert (xs + [x])[..|xs|] == xs;
    BytesOfSum(Map(f, xs), [f(x)]);
    BytesOfOne(f(x));
  }

  /** The loop over the tables, with the three loops inside it. */
  method WriteTables(tables: seq<Table>) returns (hash: string)
    ensures hash == Bytes(TablesItems(tables))
  {
    hide Bytes, Record, Map;
    hash := "";
    NoBytes();
    for i := 0 to |tables|
      invariant hash == Bytes(TablesItems(tables[..i]))
    {
      var t := tables[i];
      assert tables[..i + 1][..i] == tables[..i];
      BytesOfOne(Head(t));
      hash := Write(hash, [S("table"), S(t.schema), S(t.name), S(t.kind), S(t.owner)]);
      hash := WriteAll(hash, AsColumn, t.columns);
      hash := WriteAll(hash, AsIndex, t.indexes);
      hash := WriteAll(hash, AsConstraint, t.constraints);
      TableBytes(TablesItems(tables[..i]), [Head(t)], Map(AsColumn, t.columns),
        Map(AsIndex, t.indexes), Map(AsConstraint, t.constraints));
    }
    assert tables[..|tables|] == tables;
  }

  lemma NoBytes()
    ensures Bytes([]) == []
  {
  }

  /** Everything the fingerprint's hash is given, table by table and section by section. */
  method WriteCatalog(catalog: Catalog) returns (hash: string)
    ensures hash == Bytes(Items(catalog))
  {
    hide Bytes, Map, TablesItems;
    hash := WriteTables(catalog.tables);
    BytesOfSum(TablesItems(catalog.tables), FromFunctions(catalog));
    BytesOfSum(Map(AsFunction, catalog.functions), FromSettings(catalog));
    hash := WriteAll(hash, AsFunction, catalog.functions);
    BytesOfSum(Map(AsSetting, catalog.settings), FromExtensions(catalog));
    hash := WriteAll(hash, AsSetting, catalog.settings);
    BytesOfSum(Map(AsExtension, catalog.extensions), FromSchemas(catalog));
    hash := WriteAll(hash, AsExtension, catalog.extensions);
    BytesOfSum(Map(AsSchema, catalog.schemas), FromSequences(catalog));
    hash := WriteAll(hash, AsSchema, catalog.schemas);
    BytesOfSum(Map(AsSequence, catalog.sequences), FromTriggers(catalog));
    hash := WriteAll(hash, AsSequence, catalog.sequences);
    BytesOfSum(Map(AsTrigger, catalog.triggers), FromPartitions(catalog));
    hash := WriteAll(hash, AsTrigger, catalog.triggers);
    BytesOfSum(Map(AsPartition, catalog.partitions), FromPolicies(catalog));
    hash := WriteAll(hash, AsPartition, catalog.partitions);
    BytesOfSum(Map(AsPolicy, catalog.policies), FromEnums(catalog));
    hash := WriteAll(hash, AsPolicy, catalog.policies);
    hash := WriteAll(hash, AsEnum, catalog.enums);
  }

  lemma TableBytes(done: seq<Item>, head: seq<Item>, columns: seq<Item>, indexes: seq<Item>, constraints: seq<Item>)
    ensures Bytes(done + (head + (columns + (indexes + constraints))))
         == Bytes(done) + Bytes(head) + Bytes(columns) + Bytes(indexes) + Bytes(constraints)
  {
    hide Bytes;
    BytesOfSum(indexes, constraints);
    BytesOfSum(columns, indexes + constraints);
    BytesOfSum(head, columns + (indexes + constraints));
    BytesOfSum(done, head + (columns + (indexes + constraints)));
  }

  // ---- Reading the bytes back ----------------------------------------------------------------------

  /** Without the separator of fields. The separator of records does no harm inside a text: a record's tag says how
      many fields it has. */
  predicate Clean(s: string) { US !in s }

  /** Values that can be read back from their print: texts without the separator, and lists of one such text. */
  predicate Plain(v: Value) {
    match v
    case S(text) => Clean(text)
    case L(items) => |items| == 1 && Clean(items[0])
    case _ => true
  }

  predicate PlainItem(item: Item) { PlainValues(Values(item)) }

  predicate PlainItems(items: seq<Item>) {
    forall i | 0 <= i < |items| :: PlainItem(items[i])
  }

  // Numbers

  function Magnitude(n: int): nat { if n < 0 then -n else n }

  lemma SignedReadsBack(n: int)
    ensures Clean(Signed(n)) && Signed(n) != ""
    ensures n < 0 <==> Signed(n)[0] == '-'
    ensures var digits := if n < 0 then Signed(n)[1..] else Signed(n);
            IsNumeral(digits) && NumberOf(digits) == Magnitude(n)
  {
    NumeralReadsBack(Magnitude(n));
    if n < 0 { assert Signed(n)[1..] == Numeral(-n); }
  }

  lemma SignedIsInjective(m: int, n: int)
    requires Signed(m) == Signed(n)
    ensures m == n
  {
    SignedReadsBack(m);
    SignedReadsBack(n);
  }

  // Values, records and sequences of records

  predicate SameSort(v: Value, w: Value) {
    v.S? == w.S? && v.N? == w.N? && v.B? == w.B?
  }

  lemma PrintIsClean(v: Value)
    requires Plain(v)
    ensures Clean(Print(v))
  {
    match v
    case S(_) =>
    case N(n) => SignedReadsBack(n);
    case B(_) =>
    case L(items) =>
  }

  lemma PrintIsInjective(v: Value, w: Value)
    requires Plain(v) && Plain(w) && SameSort(v, w) && Print(v) == Print(w)
    ensures v == w
  {
    match v
    case S(_) =>
    case N(n) => SignedIsInjective(n, w.number);
    case B(_) =>
    case L(items) =>
      assert Print(v)[1..|Print(v)| - 1] == Join(items, ' ') && Print(w)[1..|Print(w)| - 1] == Join(w.items, ' ');
  }

  function Prints(values: seq<Value>): seq<string> {
    seq(|values|, i requires 0 <= i < |values| => Print(values[i]))
  }

  predicate PlainValues(values: seq<Value>) {
    forall i | 0 <= i < |values| :: Plain(values[i])
  }

  /** No print of the values holds the separator of records. */
  predicate RecordFree(values: seq<Value>) {
    forall i | 0 <= i < |values| :: RS !in Print(values[i])
  }

  /** An end of record tells itself apart from a field. */
  lemma RecordStart(values: seq<Value>, x: string)
    requires RecordFree(values)
    ensures Record(values) + x != "" && ((Record(values) + x)[0] == RS <==> values == [])
  {
    hide Print;
    if values != [] {
      assert (Record(values) + x)[0] == (Print(values[0]) + [US])[0];
    }
  }

  /** The first record of a text can be read off it when its number of fields is known, or when no field holds the
      separator of records: the same text starts with the same fields. */
  lemma {:induction false} RecordReadsBack(v: seq<Value>, x: string, w: seq<Value>, y: string)
    requires PlainValues(v) && PlainValues(w) && Record(v) + x == Record(w) + y
    requires |v| == |w| || (RecordFree(v) && RecordFree(w))
    ensures Prints(v) == Prints(w) && x == y
    decreases |v|
  {
    hide Print, Plain;
    if |v| != |w| {
      RecordStart(v, x);
      RecordStart(w, y);
    }
    if v == [] {
      assert (Record(v) + x)[1..] == x && (Record(w) + y)[1..] == y;
    } else {
      PrintIsClean(v[0]);
      PrintIsClean(w[0]);
      assert Record(v) + x == Print(v[0]) + [US] + (Record(v[1..]) + x);
      assert Record(w) + y == Print(w[0]) + [US] + (Record(w[1..]) + y);
      CutAtMark(Print(v[0]), Record(v[1..]) + x, Print(w[0]), Record(w[1..]) + y, US);
      RecordReadsBack(v[1..], x, w[1..], y);
      assert Prints(v) == [Print(v[0])] + Prints(v[1..]) && Prints(w) == [Print(w[0])] + Prints(w[1..]);
    }
  }

  // Items

  function Tag(item: Item): string { Values(item)[0].text }

  lemma TagTellsRank(i: Item, j: Item)
    requires Tag(i) == Tag(j)
    ensures Rank(i) == Rank(j)
  {
    hide Print, Rank, Tag, Values;
    TagShape(i);
    TagShape(j);
  }

  /** Length and first letter are enough to tell the tags apart. */
  lemma TagShape(item: Item)
    ensures (|Tag(item)|, Tag(item)[0]) ==
      [(5, 't'), (6, 'c'), (5, 'i'), (10, 'c'), (8, 'f'), (7, 's'),
        (9, 'e'), (6, 's'), (8, 's'), (7, 't'), (9, 'p'), (6, 'p'), (4, 'e')][Rank(item)]
  {
  }

  /** The sorts of the values in a record of a rank. */
  function Shape(rank: nat): string
    requires rank <= 12
  {
    ["SSSSS", "SSNSBB", "SSSBB", "SSSS", "SSSSSSS", "SSSSSS", "SSS",
     "SSS", "SSSS", "SSSSSSS", "SSSSS", "SSSSSLSS", "SSSL"][rank]
  }

  function Sort(v: Value): char {
    if v.S? then 'S' else if v.N? then 'N' else if v.B? then 'B' else 'L'
  }

  lemma ItemHasShape(item: Item, k: nat)
    ensures |Values(item)| == |Shape(Rank(item))|
    ensures k < |Values(item)| ==> Sort(Values(item)[k]) == Shape(Rank(item))[k]
  {
  }

  lemma SameRankSameSorts(i: Item, j: Item, k: nat)
    requires Rank(i) == Rank(j) && k < |Values(i)|
    ensures |Values(i)| == |Values(j)| && SameSort(Values(i)[k], Values(j)[k])
  {
    hide Values, Rank, Shape;
    ItemHasShape(i, k);
    ItemHasShape(j, k);
  }

  lemma ItemReadsBack(i: Item, j: Item)
    requires PlainItem(i) && PlainItem(j) && Prints(Values(i)) == Prints(Values(j))
    ensures i == j
  {
    hide Values, Rank, Print, Plain, SameSort;
    FirstPrintIsTag(i);
    FirstPrintIsTag(j);
    TagTellsRank(i, j);
    forall k | 0 <= k < |Values(i)| ensures k < |Values(j)| && Values(i)[k] == Values(j)[k] {
      SameRankSameSorts(i, j, k);
      assert Prints(Values(i))[k] == Prints(Values(j))[k];
      PrintIsInjective(Values(i)[k], Values(j)[k]);
    }
    ItemFromValues(i, j);
  }

  lemma FirstPrintIsTag(item: Item)
    ensures Values(item) != [] && Prints(Values(item))[0] == Tag(item)
  {
  }

  lemma ItemFromValues(i: Item, j: Item)
    requires Rank(i) == Rank(j) && |Values(i)| == |Values(j)|
    requires forall k | 0 <= k < |Values(i)| :: Values(i)[k] == Values(j)[k]
    ensures i == j
  {
    assert Values(i) == Values(j);
  }

  lemma TagIsClean(item: Item)
    ensures Clean(Tag(item))
  {
    hide Tag;
    if Rank(item) <= 6 { EarlyTagIsClean(item); } else { LateTagIsClean(item); }
  }

  lemma EarlyTagIsClean(item: Item)
    requires Rank(item) <= 6
    ensures Clean(Tag(item))
  {
  }

  lemma LateTagIsClean(item: Item)
    requires Rank(item) > 6
    ensures Clean(Tag(item))
  {
  }

  /** A text that starts with an item's record starts with its tag, up to the first separator. */
  lemma TagFirst(item: Item, x: string)
    ensures Values(item) != []
    ensures Record(Values(item)) + x == Tag(item) + [US] + (Record(Values(item)[1..]) + x)
  {
    hide Values, Print, Tag;
    FirstPrintIsTag(item);
    SameFirst(Values(item), Record(Values(item)[1..]), x);
  }

  lemma SameFirst(values: seq<Value>, rest: string, x: string)
    requires values != [] && rest == Record(values[1..])
    ensures Record(values) + x == Prints(values)[0] + [US] + (rest + x)
  {
    hide Print;
  }

  /** The tag at the start of a text tells how many fields follow. */
  lemma SameStartSameFields(i: Item, x: string, j: Item, y: string)
    requires Record(Values(i)) + x == Record(Values(j)) + y
    ensures Tag(i) == Tag(j) && |Values(i)| == |Values(j)|
  {
    hide Values, Record, Tag;
    TagFirst(i, x);
    TagFirst(j, y);
    TagIsClean(i);
    TagIsClean(j);
    CutAtMark(Tag(i), Record(Values(i)[1..]) + x, Tag(j), Record(Values(j)[1..]) + y, US);
    TagTellsRank(i, j);
    SameRankSameSorts(i, j, 0);
  }

  /** The bytes of a sequence of items determine it. */
  lemma {:induction false} ItemsReadBack(a: seq<Item>, b: seq<Item>)
    requires PlainItems(a) && PlainItems(b) && Bytes(a) == Bytes(b)
    ensures a == b
    decreases |a|
  {
    hide Values, Record, PlainItem;
    if a == [] || b == [] {
      if a != [] { RecordIsNotEmpty(Values(a[0])); }
      if b != [] { RecordIsNotEmpty(Values(b[0])); }
    } else {
      ItemIsPlain(a[0]);
      ItemIsPlain(b[0]);
      SameStartSameFields(a[0], Bytes(a[1..]), b[0], Bytes(b[1..]));
      RecordReadsBack(Values(a[0]), Bytes(a[1..]), Values(b[0]), Bytes(b[1..]));
      ItemReadsBack(a[0], b[0]);
      ItemsReadBack(a[1..], b[1..]);
      assert a == [a[0]] + a[1..] && b == [b[0]] + b[1..];
    }
  }

  lemma ItemIsPlain(item: Item)
    requires PlainItem(item)
    ensures PlainValues(Values(item))
  {
  }

  lemma RecordIsNotEmpty(values: seq<Value>)
    ensures Record(values) != ""
  {
  }

  // ---- Sections and tables out of the items --------------------------------------------------------

  /** The items whose rank lies in `lo .. hi`, in order. */
  function Only(items: seq<Item>, lo: nat, hi: nat): seq<Item> {
    if items == [] then [] else
      var last := items[|items| - 1];
      Only(items[..|items| - 1], lo, hi) + if lo <= Rank(last) < hi then [last] else []
  }

  lemma {:induction false} OnlyOfSum(a: seq<Item>, b: seq<Item>, lo: nat, hi: nat)
    ensures Only(a + b, lo, hi) == Only(a, lo, hi) + Only(b, lo, hi)
  {
    hide Rank;
    if b == [] {
      assert a + b == a;
    } else {
      assert (a + b)[..|a + b| - 1] == a + b[..|b| - 1];
      OnlyOfSum(a, b[..|b| - 1], lo, hi);
    }
  }

  lemma {:induction false} OnlyOfUniform(items: seq<Item>, rank: nat, lo: nat, hi: nat)
    requires forall i | 0 <= i < |items| :: Rank(items[i]) == rank
    ensures Only(items, lo, hi) == if lo <= rank < hi then items else []
  {
    hide Rank;
    if items != [] { OnlyOfUniform(items[..|items| - 1], rank, lo, hi); }
  }

  lemma Section<T(!new)>(f: T -> Item, xs: seq<T>, rest: seq<Item>, rank: nat, lo: nat, hi: nat)
    requires forall x :: Rank(f(x)) == rank
    ensures Only(Map(f, xs) + rest, lo, hi) == (if lo <= rank < hi then Map(f, xs) else []) + Only(rest, lo, hi)
  {
    hide Rank, Only;
    OnlyOfSum(Map(f, xs), rest, lo, hi);
    OnlyOfUniform(Map(f, xs), rank, lo, hi);
  }

  lemma OnlyOfTable(t: Table, lo: nat, hi: nat)
    ensures Only(Body(t), lo, hi) == (if lo <= 1 < hi then Map(AsColumn, t.columns) else [])
      + (if lo <= 2 < hi then Map(AsIndex, t.indexes) else [])
        + (if lo <= 3 < hi then Map(AsConstraint, t.constraints) else [])
  {
    hide Only, Map;
    Section(AsColumn, t.columns, Map(AsIndex, t.indexes) + Map(AsConstraint, t.constraints), 1, lo, hi);
    Section(AsIndex, t.indexes, Map(AsConstraint, t.constraints), 2, lo, hi);
    assert Map(AsConstraint, t.constraints) + [] == Map(AsConstraint, t.constraints);
    Section(AsConstraint, t.constraints, [], 3, lo, hi);
    NoneOfNothing(lo, hi);
  }

  lemma NoneOfNothing(lo: nat, hi: nat)
    ensures Only([], lo, hi) == []
  {
  }

  /** No item of a table's body is a table head, and none belongs to a later section. */
  lemma BodyRanks(t: Table)
    ensures forall i | 0 <= i < |Body(t)| :: 1 <= Rank(Body(t)[i]) <= 3
  {
    hide Map;
  }

  lemma {:induction false} OnlyOfTables(tables: seq<Table>, lo: nat, hi: nat)
    requires lo >= 4 || (lo == 0 && hi == 4)
    ensures Only(TablesItems(tables), lo, hi) == if lo == 0 then TablesItems(tables) else []
  {
    hide Rank, Only, Map, Body;
    if tables == [] {
      NoneOfNothing(lo, hi);
    } else {
      var front, t := tables[..|tables| - 1], tables[|tables| - 1];
      OnlyOfTables(front, lo, hi);
      OnlyOfSum(TablesItems(front), TableItems(t), lo, hi);
      OneTable(t, lo, hi);
    }
  }

  lemma OneTable(t: Table, lo: nat, hi: nat)
    requires lo >= 4 || (lo == 0 && hi == 4)
    ensures Only(TableItems(t), lo, hi) == if lo == 0 then TableItems(t) else []
  {
    hide Only, Map, Rank, Head;
    HeadRank(t);
    OnlyOfSum([Head(t)], Body(t), lo, hi);
    OnlyOfUniform([Head(t)], 0, lo, hi);
    OnlyOfTable(t, lo, hi);
    if lo == 0 {
      Associate(Map(AsColumn, t.columns), Map(AsIndex, t.indexes), Map(AsConstraint, t.constraints));
    }
  }

  /** The items that section `rank` writes. */
  function SectionItems(c: Catalog, rank: nat): seq<Item>
    requires 4 <= rank <= 12
  {
    if rank == 4 then Map(AsFunction, c.functions) else if rank == 5 then Map(AsSetting, c.settings)
    else if rank == 6 then Map(AsExtension, c.extensions) else if rank == 7 then Map(AsSchema, c.schemas)
    else if rank == 8 then Map(AsSequence, c.sequences) else if rank == 9 then Map(AsTrigger, c.triggers)
    else if rank == 10 then Map(AsPartition, c.partitions) else if rank == 11 then Map(AsPolicy, c.policies)
    else Map(AsEnum, c.enums)
  }

  lemma LateSections(c: Catalog, lo: nat, hi: nat)
    ensures Only(FromSequences(c), lo, hi) ==
      (if lo <= 8 < hi then Map(AsSequence, c.sequences) else []) + ((if lo <= 9 < hi then Map(AsTrigger, c.triggers) else [])
      + ((if lo <= 10 < hi then Map(AsPartition, c.partitions) else [])
        + ((if lo <= 11 < hi then Map(AsPolicy, c.policies) else [])
      + (if lo <= 12 < hi then Map(AsEnum, c.enums) else []))))
  {
    hide Only, Map;
    Section(AsSequence, c.sequences, FromTriggers(c), 8, lo, hi);
    Section(AsTrigger, c.triggers, FromPartitions(c), 9, lo, hi);
    Section(AsPartition, c.partitions, FromPolicies(c), 10, lo, hi);
    Section(AsPolicy, c.policies, FromEnums(c), 11, lo, hi);
    OnlyOfUniform(FromEnums(c), 12, lo, hi);
  }

  lemma EarlySections(c: Catalog, lo: nat, hi: nat)
    ensures Only(FromFunctions(c), lo, hi) ==
      (if lo <= 4 < hi then Map(AsFunction, c.functions) else []) + ((if lo <= 5 < hi then Map(AsSetting, c.settings) else [])
      + ((if lo <= 6 < hi then Map(AsExtension, c.extensions) else [])
        + ((if lo <= 7 < hi then Map(AsSchema, c.schemas) else [])
      + Only(FromSequences(c), lo, hi))))
  {
    hide Only, Map, FromSequences;
    Section(AsFunction, c.functions, FromSettings(c), 4, lo, hi);
    Section(AsSetting, c.settings, FromExtensions(c), 5, lo, hi);
    Section(AsExtension, c.extensions, FromSchemas(c), 6, lo, hi);
    Section(AsSchema, c.schemas, FromSequences(c), 7, lo, hi);
  }

  /** A section's items are exactly the items of its rank. */
  lemma SectionByRank(c: Catalog, rank: nat)
    requires 4 <= rank <= 12
    ensures Only(Items(c), rank, rank + 1) == SectionItems(c, rank)
  {
    hide Only, Map, Rank, FromFunctions, FromSequences, TablesItems;
    OnlyOfSum(TablesItems(c.tables), FromFunctions(c), rank, rank + 1);
    OnlyOfTables(c.tables, rank, rank + 1);
    EarlySections(c, rank, rank + 1);
    LateSections(c, rank, rank + 1);
  }

  lemma TablesByRank(c: Catalog)
    ensures Only(Items(c), 0, 4) == TablesItems(c.tables)
  {
    hide Only, Map, Rank, FromFunctions, FromSequences, TablesItems;
    OnlyOfSum(TablesItems(c.tables), FromFunctions(c), 0, 4);
    OnlyOfTables(c.tables, 0, 4);
    EarlySections(c, 0, 4);
    LateSections(c, 0, 4);
  }

  // ---- From items to the catalog -------------------------------------------------------------------

  lemma {:induction false} MapIsInjective<T(!new)>(f: T -> Item, xs: seq<T>, ys: seq<T>)
    requires forall x, y :: f(x) == f(y) ==> x == y
    requires Map(f, xs) == Map(f, ys)
    ensures xs == ys
  {
    hide Map;
    var a, b := Map(f, xs), Map(f, ys);
    assert |xs| == |ys|;
    forall i | 0 <= i < |xs| ensures xs[i] == ys[i] {
      assert a[i] == b[i];
      assert f(xs[i]) == f(ys[i]);
    }
  }

  lemma Alone(x: seq<Item>)
    ensures x + [] + [] == x && [] + x + [] == x && [] + [] + x == x
  {
  }

  lemma OneKindOfBody(t: Table)
    ensures Only(Body(t), 1, 2) == Map(AsColumn, t.columns)
    ensures Only(Body(t), 2, 3) == Map(AsIndex, t.indexes)
    ensures Only(Body(t), 3, 4) == Map(AsConstraint, t.constraints)
  {
    hide Only, Map, Body, Rank;
    OnlyOfTable(t, 1, 2);
    OnlyOfTable(t, 2, 3);
    OnlyOfTable(t, 3, 4);
    Alone(Map(AsColumn, t.columns));
    Alone(Map(AsIndex, t.indexes));
    Alone(Map(AsConstraint, t.constraints));
  }

  lemma SameBodySameTable(t: Table, u: Table)
    requires Head(t) == Head(u) && Body(t) == Body(u)
    ensures t == u
  {
    hide Only, Map, Body, Rank;
    OneKindOfBody(t);
    OneKindOfBody(u);
    MapIsInjective(AsColumn, t.columns, u.columns);
    MapIsInjective(AsIndex, t.indexes, u.indexes);
    MapIsInjective(AsConstraint, t.constraints, u.constraints);
  }

  /** The last table head splits the items. */
  lemma CutAtLastHead(a: seq<Item>, g: Item, x: seq<Item>, b: seq<Item>, h: Item, y: seq<Item>)
    requires Rank(g) == 0 && Rank(h) == 0
    requires forall i | 0 <= i < |x| :: Rank(x[i]) != 0
    requires forall i | 0 <= i < |y| :: Rank(y[i]) != 0
    requires a + ([g] + x) == b + ([h] + y)
    ensures a == b && g == h && x == y
  {
    hide Rank;
    var k, l := a + ([g] + x), b + ([h] + y);
    assert k[|a|] == g && l[|b|] == h;
    assert forall i | |a| < i < |k| :: k[i] == x[i - |a| - 1];
    assert forall i | |b| < i < |l| :: l[i] == y[i - |b| - 1];
    assert forall i | |a| < i < |k| :: Rank(k[i]) != 0;
    assert forall i | |b| < i < |l| :: Rank(l[i]) != 0;
    assert |a| == |b|;
    assert a == k[..|a|] && b == l[..|b|];
    assert x == k[|a| + 1..] && y == l[|b| + 1..];
  }

  lemma {:induction false} TablesAreInjective(ts: seq<Table>, us: seq<Table>)
    requires TablesItems(ts) == TablesItems(us)
    ensures ts == us
    decreases |ts|
  {
    hide Rank, Body, Map;
    if ts != [] && us != [] {
      var m, n := |ts| - 1, |us| - 1;
      BodyRanks(ts[m]);
      BodyRanks(us[n]);
      HeadRank(ts[m]);
      HeadRank(us[n]);
      CutAtLastHead(TablesItems(ts[..m]), Head(ts[m]), Body(ts[m]), TablesItems(us[..n]), Head(us[n]), Body(us[n]));
      SameBodySameTable(ts[m], us[n]);
      TablesAreInjective(ts[..m], us[..n]);
      assert ts == ts[..m] + [ts[m]] && us == us[..n] + [us[n]];
    }
  }

  lemma HeadRank(t: Table)
    ensures Rank(Head(t)) == 0
  {
  }

  /** The items written determine the catalog. */
  lemma ItemsAreInjective(c: Catalog, d: Catalog)
    requires Items(c) == Items(d)
    ensures c == d
  {
    hide Only, Map, Rank, Items, TablesItems;
    TablesByRank(c);
    TablesByRank(d);
    TablesAreInjective(c.tables, d.tables);
    forall rank | 4 <= rank <= 12 ensures SectionItems(c, rank) == SectionItems(d, rank) {
      SectionByRank(c, rank);
      SectionByRank(d, rank);
    }
    SameSectionsSameCatalog(c, d);
  }

  lemma SameSectionsSameCatalog(c: Catalog, d: Catalog)
    requires c.tables == d.tables
    requires forall rank | 4 <= rank <= 12 :: SectionItems(c, rank) == SectionItems(d, rank)
    ensures c == d
  {
    hide Map;
    assert SectionItems(c, 4) == SectionItems(d, 4);
    assert SectionItems(c, 5) == SectionItems(d, 5);
    assert SectionItems(c, 6) == SectionItems(d, 6);
    assert SectionItems(c, 7) == SectionItems(d, 7);
    assert SectionItems(c, 8) == SectionItems(d, 8);
    assert SectionItems(c, 9) == SectionItems(d, 9);
    assert SectionItems(c, 10) == SectionItems(d, 10);
    assert SectionItems(c, 11) == SectionItems(d, 11);
    assert SectionItems(c, 12) == SectionItems(d, 12);
    MapIsInjective(AsFunction, c.functions, d.functions);
    MapIsInjective(AsSetting, c.settings, d.settings);
    MapIsInjective(AsExtension, c.extensions, d.extensions);
    MapIsInjective(AsSchema, c.schemas, d.schemas);
    MapIsInjective(AsSequence, c.sequences, d.sequences);
    MapIsInjective(AsTrigger, c.triggers, d.triggers);
    MapIsInjective(AsPartition, c.partitions, d.partitions);
    MapIsInjective(AsPolicy, c.policies, d.policies);
    MapIsInjective(AsEnum, c.enums, d.enums);
  }

  // ---- What a printed list hides -------------------------------------------------------------------

  function FlatPolicy(p: Policy): Policy { p.(roles := [Join(p.roles, ' ')]) }
  function FlatEnum(e: Enum): Enum { e.(values := [Join(e.values, ' ')]) }
  function FlatPolicies(ps: seq<Policy>): seq<Policy> { seq(|ps|, i requires 0 <= i < |ps| => FlatPolicy(ps[i])) }
  function FlatEnums(es: seq<Enum>): seq<Enum> { seq(|es|, i requires 0 <= i < |es| => FlatEnum(es[i])) }

  /** The catalog with every printed list run together into the one text that is printed. */
  function Flat(c: Catalog): Catalog { c.(policies := FlatPolicies(c.policies), enums := FlatEnums(c.enums)) }

  function FlatItem(item: Item): Item {
    match item
    case PolicyItem(p) => PolicyItem(FlatPolicy(p))
    case EnumItem(e) => EnumItem(FlatEnum(e))
    case _ => item
  }

  function FlatItems(items: seq<Item>): (flat: seq<Item>)
    ensures |flat| == |items| && forall i | 0 <= i < |items| :: flat[i] == FlatItem(items[i])
  {
    seq(|items|, i requires 0 <= i < |items| => FlatItem(items[i]))
  }

  lemma FlatUniform<T(!new)>(f: T -> Item, xs: seq<T>)
    requires forall x :: FlatItem(f(x)) == f(x)
    ensures FlatItems(Map(f, xs)) == Map(f, xs)
  {
    hide Map, FlatItem;
  }

  lemma FlatSum<T>(f: T -> Item, xs: seq<T>, rest: seq<Item>)
    ensures FlatItems(Map(f, xs) + rest) == FlatItems(Map(f, xs)) + FlatItems(rest)
  {
    hide Map, FlatItem, FlatItems;
  }

  lemma FlatTables(tables: seq<Table>, rest: seq<Item>)
    ensures FlatItems(TablesItems(tables) + rest) == TablesItems(tables) + FlatItems(rest)
  {
    hide Map, TablesItems, FlatItems, Only, Rank;
    var items := TablesItems(tables);
    OnlyOfTables(tables, 11, 13);
    forall i | 0 <= i < |items| ensures FlatItem(items[i]) == items[i] {
      NoListAmong(items, i);
    }
    assert FlatItems(items + rest) == FlatItems(items) + FlatItems(rest);
    assert FlatItems(items) == items;
  }

  lemma {:induction false} NoListAmong(items: seq<Item>, i: nat)
    requires Only(items, 11, 13) == [] && i < |items|
    ensures FlatItem(items[i]) == items[i]
  {
    if i < |items| - 1 { NoListAmong(items[..|items| - 1], i); }
  }

  lemma FlatListSections(c: Catalog)
    ensures FlatItems(FromPolicies(c)) == FromPolicies(Flat(c))
  {
    hide Map, Join, FlatItems;
    FlatSum(AsPolicy, c.policies, FromEnums(c));
    assert FlatItems(Map(AsPolicy, c.policies)) == Map(AsPolicy, FlatPolicies(c.policies));
    assert FlatItems(Map(AsEnum, c.enums)) == Map(AsEnum, FlatEnums(c.enums));
  }

  lemma FlatSequences(c: Catalog)
    ensures FlatItems(FromSequences(c)) == FromSequences(Flat(c))
  {
    hide Map, Join, FlatItems, FromPolicies, FlatPolicies, FlatEnums;
    FlatListSections(c);
    FlatSum(AsPartition, c.partitions, FromPolicies(c));
    FlatUniform(AsPartition, c.partitions);
    FlatSum(AsTrigger, c.triggers, FromPartitions(c));
    FlatUniform(AsTrigger, c.triggers);
    FlatSum(AsSequence, c.sequences, FromTriggers(c));
    FlatUniform(AsSequence, c.sequences);
  }

  lemma FlatCatalog(c: Catalog)
    ensures FlatItems(Items(c)) == Items(Flat(c))
  {
    hide Map, Join, FlatItems, FromSequences, FlatPolicies, FlatEnums, TablesItems;
    FlatSequences(c);
    FlatSum(AsSchema, c.schemas, FromSequences(c));
    FlatUniform(AsSchema, c.schemas);
    FlatSum(AsExtension, c.extensions, FromSchemas(c));
    FlatUniform(AsExtension, c.extensions);
    FlatSum(AsSetting, c.settings, FromExtensions(c));
    FlatUniform(AsSetting, c.settings);
    FlatSum(AsFunction, c.functions, FromSettings(c));
    FlatUniform(AsFunction, c.functions);
    FlatTables(c.tables, FromFunctions(c));
  }

  // The bytes do not tell a list from its run-together text.

  lemma {:induction false} RecordFromPrints(v: seq<Value>, w: seq<Value>)
    requires |v| == |w| && forall i | 0 <= i < |v| :: Print(v[i]) == Print(w[i])
    ensures Record(v) == Record(w)
  {
    hide Print;
    if v != [] { RecordFromPrints(v[1..], w[1..]); }
  }

  lemma FlatItemPrints(item: Item, i: nat)
    requires i < |Values(item)|
    ensures |Values(FlatItem(item))| == |Values(item)|
    ensures Print(Values(FlatItem(item))[i]) == Print(Values(item)[i])
  {
    hide Signed;
  }

  lemma FlatItemRecord(item: Item)
    ensures Record(Values(FlatItem(item))) == Record(Values(item))
  {
    hide Print, Values, FlatItem, Record;
    if Values(item) != [] { FlatItemPrints(item, 0); }
    forall i | 0 <= i < |Values(item)|
      ensures i < |Values(FlatItem(item))| && Print(Values(FlatItem(item))[i]) == Print(Values(item)[i]) {
      FlatItemPrints(item, i);
    }
    SomeValues(item);
    RecordFromPrints(Values(FlatItem(item)), Values(item));
  }

  lemma SomeValues(item: Item)
    ensures Values(item) != []
  {
  }

  lemma {:induction false} FlatBytes(items: seq<Item>)
    ensures Bytes(FlatItems(items)) == Bytes(items)
  {
    hide Record, Values, FlatItem, FlatItems;
    if items == [] {
      assert FlatItems(items) == [];
    } else {
      FlatItemRecord(items[0]);
      assert FlatItems(items)[1..] == FlatItems(items[1..]);
      FlatBytes(items[1..]);
    }
  }

  // ---- When two catalogs have the same preimage ----------------------------------------------------

  /** No text of the value holds the separator of fields. */
  predicate CleanValue(v: Value) {
    match v
    case S(text) => Clean(text)
    case L(items) => forall i | 0 <= i < |items| :: Clean(items[i])
    case _ => true
  }

  predicate CleanItem(item: Item) {
    forall k | 0 <= k < |Values(item)| :: CleanValue(Values(item)[k])
  }

  /** No text of the catalog holds the separator of fields. */
  predicate CleanCatalog(c: Catalog) {
    forall i | 0 <= i < |Items(c)| :: CleanItem(Items(c)[i])
  }

  /** Lists whose print shows where each item ends. */
  predicate PlainList(items: seq<string>) {
    forall i | 0 <= i < |items| :: items[i] != "" && ' ' !in items[i]
  }

  predicate PlainLists(c: Catalog) {
    && (forall i | 0 <= i < |c.policies| :: PlainList(c.policies[i].roles))
    && (forall i | 0 <= i < |c.enums| :: PlainList(c.enums[i].values))
  }

  lemma JoinShowsLength(items: seq<string>)
    requires PlainList(items)
    ensures Join(items, ' ') == "" <==> items == []
    ensures ' ' in Join(items, ' ') <==> |items| > 1
  {
    if |items| > 1 { assert Join(items, ' ')[|items[0]|] == ' '; }
  }

  lemma {:induction false} JoinIsInjective(a: seq<string>, b: seq<string>)
    requires PlainList(a) && PlainList(b) && Join(a, ' ') == Join(b, ' ')
    ensures a == b
  {
    JoinShowsLength(a);
    JoinShowsLength(b);
    if |a| > 1 {
      CutAtMark(a[0], Join(a[1..], ' '), b[0], Join(b[1..], ' '), ' ');
      JoinIsInjective(a[1..], b[1..]);
      assert a == [a[0]] + a[1..] && b == [b[0]] + b[1..];
    }
  }

  lemma {:induction false} JoinIsClean(items: seq<string>)
    requires forall i | 0 <= i < |items| :: Clean(items[i])
    ensures Clean(Join(items, ' '))
  {
    if |items| > 1 { JoinIsClean(items[1..]); }
  }

  lemma FlatValueIsPlain(item: Item, k: nat)
    requires CleanItem(item) && k < |Values(FlatItem(item))|
    ensures Plain(Values(FlatItem(item))[k])
  {
    assert |Values(item)| == |Values(FlatItem(item))| && CleanValue(Values(item)[k]);
    if Values(item)[k].L? { JoinIsClean(Values(item)[k].items); }
  }

  lemma FlatCatalogIsPlain(c: Catalog)
    requires CleanCatalog(c)
    ensures PlainItems(Items(Flat(c)))
  {
    hide Items, Values, Plain, FlatItems, FlatItem, CleanItem, Flat;
    FlatCatalog(c);
    forall i | 0 <= i < |Items(Flat(c))| ensures PlainItem(Items(Flat(c))[i]) {
      var item := Items(c)[i];
      assert Items(Flat(c))[i] == FlatItem(item);
      forall k | 0 <= k < |Values(FlatItem(item))| ensures Plain(Values(FlatItem(item))[k]) {
        FlatValueIsPlain(item, k);
      }
    }
  }

  /** Exactly when two catalogs without the separator of fields in their texts give the hash the same bytes: they agree on
      everything but how the printed lists are split. */
  lemma SameBytesMeansSamePrint(c: Catalog, d: Catalog)
    requires CleanCatalog(c) && CleanCatalog(d)
    ensures Bytes(Items(c)) == Bytes(Items(d)) <==> Flat(c) == Flat(d)
  {
    hide Bytes, Items, PlainItems, Flat, CleanCatalog, FlatItems;
    FlatCatalog(c);
    FlatCatalog(d);
    FlatBytes(Items(c));
    FlatBytes(Items(d));
    FlatCatalogIsPlain(c);
    FlatCatalogIsPlain(d);
    if Bytes(Items(c)) == Bytes(Items(d)) {
      ItemsReadBack(Items(Flat(c)), Items(Flat(d)));
      ItemsAreInjective(Flat(c), Flat(d));
    }
  }

  lemma FlatIsInjective(c: Catalog, d: Catalog)
    requires PlainLists(c) && PlainLists(d) && Flat(c) == Flat(d)
    ensures c == d
  {
    hide Join, PlainList;
    assert FlatPolicies(c.policies) == FlatPolicies(d.policies) && FlatEnums(c.enums) == FlatEnums(d.enums);
    assert |c.policies| == |d.policies| && |c.enums| == |d.enums|;
    forall i | 0 <= i < |c.policies| ensures c.policies[i] == d.policies[i] {
      assert FlatPolicies(c.policies)[i] == FlatPolicies(d.policies)[i];
      assert FlatPolicy(c.policies[i]).roles[0] == FlatPolicy(d.policies[i]).roles[0];
      JoinIsInjective(c.policies[i].roles, d.policies[i].roles);
    }
    forall i | 0 <= i < |c.enums| ensures c.enums[i] == d.enums[i] {
      assert FlatEnums(c.enums)[i] == FlatEnums(d.enums)[i];
      assert FlatEnum(c.enums[i]).values[0] == FlatEnum(d.enums[i]).values[0];
      JoinIsInjective(c.enums[i].values, d.enums[i].values);
    }
  }

  /** The preimage is injective on catalogs without the separator of fields whose role and enum lists hold no empty item and
      no item with a space. */
  lemma PreimageIsInjective(c: Catalog, d: Catalog)
    requires CleanCatalog(c) && CleanCatalog(d) && PlainLists(c) && PlainLists(d)
    ensures Bytes(Items(c)) == Bytes(Items(d)) <==> c == d
  {
    hide Bytes, Items, Flat, CleanCatalog, PlainLists;
    SameBytesMeansSamePrint(c, d);
    if Flat(c) == Flat(d) { FlatIsInjective(c, d); }
  }

  function OneEnum(values: seq<string>): Catalog {
    Catalog([], [], [], [], [], [], [], [], [], [Enum("public", "mood", values)])
  }

  lemma ItemsOfEnum(values: seq<string>)
    ensures Items(OneEnum(values)) == [EnumItem(Enum("public", "mood", values))]
  {
    assert Map(AsEnum, [Enum("public", "mood", values)]) == [AsEnum(Enum("public", "mood", values))];
  }

  lemma FirstValue(v: Value, rest: seq<Value>)
    ensures Record([v] + rest) == (Print(v) + [US]) + Record(rest)
  {
    assert ([v] + rest)[1..] == rest;
  }

  lemma EnumBytes(values: seq<string>)
    ensures Bytes(Items(OneEnum(values))) ==
      ("enum" + [US]) + (("public" + [US]) + (("mood" + [US]) + ("[" + Join(values, ' ') + ("]" + [US] + [RS]))))
  {
    hide Items, Join, Record, Bytes;
    ItemsOfEnum(values);
    BytesOfOne(EnumItem(Enum("public", "mood", values)));
    var last := L(values);
    FirstValue(S("enum"), [S("public")] + ([S("mood")] + ([last] + [])));
    FirstValue(S("public"), [S("mood")] + ([last] + []));
    FirstValue(S("mood"), [last] + []);
    FirstValue(last, []);
    EmptyRecord();
    assert Values(EnumItem(Enum("public", "mood", values))) == [S("enum")] + ([S("public")] + ([S("mood")] + ([last] + [])));
    assert (Print(last) + [US]) + [RS] == "[" + Join(values, ' ') + ("]" + [US] + [RS]);
  }

  lemma EmptyRecord()
    ensures Record([]) == [RS]
  {
  }

  lemma SamePrefix(head: string, a: string, b: string)
    ensures head + a == head + b <==> a == b
  {
    assert (head + a)[|head|..] == a && (head + b)[|head|..] == b;
  }

  lemma SameMiddle(head: string, a: string, b: string, tail: string)
    ensures head + a + tail == head + b + tail <==> a == b
  {
    if head + a + tail == head + b + tail {
      var k := head + a + tail;
      assert a == k[|head|..|k| - |tail|];
      assert b == (head + b + tail)[|head|..|k| - |tail|];
    }
  }

  /** Two enums that differ in their values give the same bytes exactly when the values print the same. */
  lemma EnumBytesShowThePrint(a: seq<string>, b: seq<string>)
    ensures Bytes(Items(OneEnum(a))) == Bytes(Items(OneEnum(b))) <==> Join(a, ' ') == Join(b, ' ')
  {
    hide Items, Bytes, Join;
    EnumBytes(a);
    EnumBytes(b);
    var tail := "]" + [US] + [RS];
    var x, y := "[" + Join(a, ' ') + tail, "[" + Join(b, ' ') + tail;
    SamePrefix("enum" + [US], ("public" + [US]) + (("mood" + [US]) + x), ("public" + [US]) + (("mood" + [US]) + y));
    SamePrefix("public" + [US], ("mood" + [US]) + x, ("mood" + [US]) + y);
    SamePrefix("mood" + [US], x, y);
    SameMiddle("[", Join(a, ' '), Join(b, ' '), tail);
  }

  /** The only list of values whose print no other list has: one value, not empty and without a space. */
  predicate OneWord(values: seq<string>) { |values| == 1 && values[0] != "" && ' ' !in values[0] }

  /** A list that prints the same as `values`. */
  function OtherSplit(values: seq<string>): seq<string>
    requires !OneWord(values)
  {
    if values == [] then [""]
    else if |values| > 1 then [Join(values, ' ')]
    else if values[0] == "" then []
    else
      var k := SpaceIn(values[0]);
      [values[0][..k], values[0][k + 1..]]
  }

  function SpaceIn(s: string): (k: nat)
    requires ' ' in s
    ensures k < |s| && s[k] == ' '
  {
    if s[0] == ' ' then 0 else 1 + SpaceIn(s[1..])
  }

  lemma OtherSplitPrintsTheSame(values: seq<string>)
    requires !OneWord(values)
    ensures OtherSplit(values) != values && Join(OtherSplit(values), ' ') == Join(values, ' ')
  {
    if |values| == 1 && values[0] != "" {
      var s, k := values[0], SpaceIn(values[0]);
      var split := [s[..k], s[k + 1..]];
      assert split[1..] == [s[k + 1..]];
      assert Join(split, ' ') == s[..k] + [' '] + s[k + 1..] == s;
    }
  }

  lemma OneWordIsRecovered(values: seq<string>, other: seq<string>)
    requires OneWord(values) && Join(other, ' ') == Join(values, ' ')
    ensures other == values
  {
    SpaceBetween(other);
  }

  lemma SpaceBetween(values: seq<string>)
    ensures |values| > 1 ==> ' ' in Join(values, ' ')
  {
    if |values| > 1 { assert Join(values, ' ')[|values[0]|] == ' '; }
  }

  /** Spaces between the printed values hide the split: some other list of values gives an enum with the same bytes
      if and only if the list is not one single word. */
  lemma SpacesHideTheSplit(values: seq<string>)
    ensures (exists other :: other != values && Bytes(Items(OneEnum(other))) == Bytes(Items(OneEnum(values))))
      <==> !OneWord(values)
  {
    hide Bytes, Items, Join, OtherSplit;
    if OneWord(values) {
      forall other | Bytes(Items(OneEnum(other))) == Bytes(Items(OneEnum(values))) ensures other == values {
        EnumBytesShowThePrint(other, values);
        OneWordIsRecovered(values, other);
      }
    } else {
      OtherSplitPrintsTheSame(values);
      EnumBytesShowThePrint(OtherSplit(values), values);
    }
  }

  function OneExtension(name: string, version: string): Catalog {
    Catalog([], [], [], [Extension(name, version)], [], [], [], [], [], [])
  }

  lemma ExtensionBytes(name: string, version: string)
    ensures Bytes(Items(OneExtension(name, version))) == "extension" + [US] + (name + [US] + version) + [US] + [RS]
  {
    var items := Items(OneExtension(name, version));
    assert items == [ExtensionItem(Extension(name, version))] by {
      assert Map(AsExtension, [Extension(name, version)]) == [AsExtension(Extension(name, version))];
    }
    BytesOfOne(items[0]);
    ExtensionRecord(name, version);
  }

  lemma ExtensionRecord(name: string, version: string)
    ensures Record(Values(ExtensionItem(Extension(name, version))))
      == "extension" + [US] + (name + [US] + version) + [US] + [RS]
  {
    var v := Values(ExtensionItem(Extension(name, version)));
    assert v[1..] == [S(name), S(version)] && v[1..][1..] == [S(version)] && v[1..][1..][1..] == [];
    assert Record([S(version)]) == version + [US] + [RS];
    assert Record([S(name), S(version)]) == name + [US] + Record([S(version)]);
  }

  /** How many separators of fields a text holds. */
  function Marks(s: string): nat {
    if s == "" then 0 else Marks(s[..|s| - 1]) + if s[|s| - 1] == US then 1 else 0
  }

  lemma {:induction false} MarksOfSum(a: string, b: string)
    ensures Marks(a + b) == Marks(a) + Marks(b)
  {
    if b == "" {
      assert a + b == a;
    } else {
      assert (a + b)[..|a + b| - 1] == a + b[..|b| - 1];
      MarksOfSum(a, b[..|b| - 1]);
    }
  }

  lemma {:induction false} NoMarks(s: string)
    ensures Marks(s) == 0 <==> Clean(s)
  {
    if s != "" { NoMarks(s[..|s| - 1]); }
  }

  lemma MarksOfTwoFields(a: string, b: string, rest: string)
    ensures Marks(a + [US] + (b + [US] + rest)) == Marks(a) + Marks(b) + 2 + Marks(rest)
  {
    hide Marks;
    assert Marks([US]) == 1 by { OneMark(); }
    MarksOfSum(a + [US], b + [US] + rest);
    MarksOfSum(a, [US]);
    MarksOfSum(b + [US], rest);
    MarksOfSum(b, [US]);
  }

  lemma OneMark()
    ensures Marks([US]) == 1 && Marks([RS]) == 0
  {
    assert [US][..0] == "" && [RS][..0] == "";
  }

  /** Two fields without a separator are read off any text that starts like them. */
  lemma TwoFieldsReadBack(a: string, b: string, x: string, c: string, d: string)
    requires Clean(c) && Clean(d)
    requires a + [US] + (b + [US] + ([RS] + x)) == c + [US] + (d + [US] + ([RS] + ""))
    ensures a == c && b == d && x == ""
  {
    hide Marks;
    MarksOfTwoFields(a, b, [RS] + x);
    MarksOfTwoFields(c, d, [RS] + "");
    OneMark();
    assert [RS] + "" == [RS];
    NoMarks(a);
    NoMarks(b);
    NoMarks(c);
    NoMarks(d);
    CutAtMark(a, b + [US] + ([RS] + x), c, d + [US] + ([RS] + ""), US);
    CutAtMark(b, [RS] + x, d, [RS] + "", US);
    assert x == ([RS] + x)[1..];
  }

  lemma ExtensionFields(x: Extension, rest: string)
    ensures Record(Values(ExtensionItem(x))[1..]) + rest == x.name + [US] + (x.version + [US] + ([RS] + rest))
  {
    var v := Values(ExtensionItem(x));
    assert v[1..] == [S(x.name), S(x.version)] && v[1..][1..] == [S(x.version)] && v[1..][1..][1..] == [];
    assert Record([S(x.version)]) == x.version + [US] + [RS];
    assert Record([S(x.name), S(x.version)]) == x.name + [US] + Record([S(x.version)]);
  }

  lemma ExtensionTag(item: Item)
    ensures Tag(item) == "extension" <==> item.ExtensionItem?
  {
    hide Values, Tag, Rank;
    var one := ExtensionItem(Extension("", ""));
    RankOfExtension(item);
    RankOfExtension(one);
    if Tag(item) == "extension" { TagTellsRank(item, one); }
  }

  lemma RankOfExtension(item: Item)
    ensures Rank(item) == 6 <==> item.ExtensionItem?
    ensures item.ExtensionItem? ==> Tag(item) == "extension"
  {
  }

  lemma ItemsOfExtension(name: string, version: string)
    ensures Items(OneExtension(name, version)) == [ExtensionItem(Extension(name, version))]
  {
    assert Map(AsExtension, [Extension(name, version)]) == [AsExtension(Extension(name, version))];
  }

  /** Only one catalog has the bytes of an extension without the separator of fields. */
  lemma CleanExtensionIsRecovered(name: string, version: string, d: Catalog)
    requires Clean(name) && Clean(version) && Bytes(Items(d)) == Bytes(Items(OneExtension(name, version)))
    ensures d == OneExtension(name, version)
  {
    hide Items, Values, Record, Tag;
    var items, one := Items(d), ExtensionItem(Extension(name, version));
    ItemsOfExtension(name, version);
    BytesOfOne(one);
    assert Record(Values(one)) == Record(Values(one)) + "";
    RecordIsNotEmpty(Values(one));
    assert items != [];
    var e, rest := items[0], Bytes(items[1..]);
    SameStartSameFields(e, rest, one, "");
    ExtensionTag(one);
    ExtensionTag(e);
    TagFirst(e, rest);
    TagFirst(one, "");
    TagIsClean(e);
    CutAtMark(Tag(e), Record(Values(e)[1..]) + rest, Tag(one), Record(Values(one)[1..]) + "", US);
    ExtensionFields(e.extension, rest);
    ExtensionFields(one.extension, "");
    TwoFieldsReadBack(e.extension.name, e.extension.version, rest, name, version);
    if items[1..] != [] { RecordIsNotEmpty(Values(items[1..][0])); }
    assert items == [e] + items[1..];
    ItemsAreInjective(d, OneExtension(name, version));
  }

  lemma OtherMark(name: string, version: string) returns (k: nat)
    requires !Clean(name) || !Clean(version)
    ensures k < |name + [US] + version| && (name + [US] + version)[k] == US && k != |name|
  {
    if !Clean(name) {
      k :| 0 <= k < |name| && name[k] == US;
    } else {
      var i :| 0 <= i < |version| && version[i] == US;
      k := |name| + 1 + i;
    }
  }

  /** Which texts the separator of fields spoils: for every name and version, some other catalog has the bytes of
      that extension if and only if one of the two texts holds the separator. */
  lemma SeparatorsMoveBorders(name: string, version: string)
    ensures (exists d :: d != OneExtension(name, version) && Bytes(Items(d)) == Bytes(Items(OneExtension(name, version))))
      <==> !Clean(name) || !Clean(version)
  {
    hide Bytes, Items;
    if Clean(name) && Clean(version) {
      forall d | Bytes(Items(d)) == Bytes(Items(OneExtension(name, version))) ensures d == OneExtension(name, version) {
        CleanExtensionIsRecovered(name, version, d);
      }
    } else {
      var all := name + [US] + version;
      var k := OtherMark(name, version);
      var d := OneExtension(all[..k], all[k + 1..]);
      assert all == all[..k] + [US] + all[k + 1..];
      ExtensionBytes(name, version);
      ExtensionBytes(all[..k], all[k + 1..]);
      assert d.extensions[0] != Extension(name, version);
    }
  }

  // ---- The bytes of each kind of record ------------------------------------------------------------

  /** Fields one after the other, each closed by 0x1f, and 0x1e at the end. */
  function Line(fields: seq<string>): string {
    if fields == [] then "\U{1E}" else fields[0] + "\U{1F}" + Line(fields[1..])
  }

  function YesNo(flag: bool): string { if flag then "true" else "false" }

  function Listed(items: seq<string>): string { "[" + Join(items, ' ') + "]" }

  /** The printed fields of a record, tag first. */
  function Fields(item: Item): seq<string> {
    match item
    case TableItem(schema, name, kind, owner) => ["table", schema, name, kind, owner]
    case ColumnItem(c) => ["column", c.name, Signed(c.ordinal), c.dataType, YesNo(c.nullable), YesNo(c.hasDefault)]
    case IndexItem(x) => ["index", x.name, x.definition, YesNo(x.unique), YesNo(x.primary)]
    case ConstraintItem(c) => ["constraint", c.name, c.kind, c.definition]
    case FunctionItem(f) => ["function", f.schema, f.name, f.owner, f.language, f.arguments, f.result]
    case SettingItem(s) => ["setting", s.name, s.value, s.unit, s.context, s.source]
    case ExtensionItem(e) => ["extension", e.name, e.version]
    case SchemaItem(s) => ["schema", s.name, s.owner]
    case SequenceItem(s) => ["sequence", s.schema, s.name, s.owner]
    case TriggerItem(t) => ["trigger", t.schema, t.table, t.name, t.function_, t.enabled, t.definition]
    case PartitionItem(p) => ["partition", p.parentSchema, p.parentTable, p.childSchema, p.childTable]
    case PolicyItem(p) => ["policy", p.schema, p.table, p.name, p.command, Listed(p.roles), p.using_, p.check]
    case EnumItem(e) => ["enum", e.schema, e.name, Listed(e.values)]
  }

  lemma {:induction false} RecordIsLine(values: seq<Value>, fields: seq<string>)
    requires |values| == |fields| && forall i | 0 <= i < |values| :: Print(values[i]) == fields[i]
    ensures Record(values) == Line(fields)
  {
    hide Print;
    if values != [] { RecordIsLine(values[1..], fields[1..]); }
  }

  lemma EarlyFields(item: Item)
    requires Rank(item) <= 5
    ensures |Values(item)| == |Fields(item)|
    ensures forall i | 0 <= i < |Values(item)| :: Print(Values(item)[i]) == Fields(item)[i]
  {
    hide Signed;
  }

  lemma LateFields(item: Item)
    requires Rank(item) > 5
    ensures |Values(item)| == |Fields(item)|
    ensures forall i | 0 <= i < |Values(item)| :: Print(Values(item)[i]) == Fields(item)[i]
  {
    hide Join;
  }

  /** The bytes of a record, kind by kind. */
  lemma RecordsAreLines(item: Item)
    ensures Record(Values(item)) == Line(Fields(item))
  {
    hide Record, Line, Values, Fields, Print, Rank;
    if Rank(item) <= 5 { EarlyFields(item); } else { LateFields(item); }
    RecordIsLine(Values(item), Fields(item));
  }
}
