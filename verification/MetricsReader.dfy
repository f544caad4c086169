/** What the exported text says: a reader of the exposition format, and that it reads back every
    name, label, value and kind that the export printed. */
module MetricsReader {
  import opened Bytes
  import opened Text
  import opened MetricsExport

  datatype MetricKind = CounterKind | GaugeKind | HistogramKind | OtherKind

  /** What one line of the text says. */
  datatype Item =
    | Help(name: string, description: string)
    | Type(name: string, kind: MetricKind)
    | Value(name: string, labels: Option<string>, value: nat)
    | Unreadable

  // ---------------------------------------------------------------- reading

  function ReadKind(s: string): MetricKind {
    if s == "counter" then CounterKind
    else if s == "gauge" then GaugeKind
    else if s == "histogram" then HistogramKind
    else OtherKind
  }

  predicate Begins(s: string, prefix: string) {
    prefix <= s
  }

  const HELP: string := "# HELP "
  const TYPE: string := "# TYPE "

  /** A comment line names a metric up to a blank; a value stands behind the last blank, and labels
      between the first brace and the one before that blank. */
  function ReadItem(line: string): Item {
    if Begins(line, HELP) then ReadHelp(line[|HELP|..])
    else if Begins(line, TYPE) then ReadType(line[|TYPE|..])
    else
      var p := Last(line, ' ');
      if p == |line| then Unreadable else ReadValue(line[..p], Digits(line[p + 1..], 0))
  }

  function ReadHelp(s: string): Item {
    var k := First(s, ' ');
    if k == |s| then Unreadable else Help(s[..k], s[k + 1..])
  }

  function ReadType(s: string): Item {
    var k := First(s, ' ');
    if k == |s| then Unreadable else Type(s[..k], ReadKind(s[k + 1..]))
  }

  function ReadValue(head: string, value: nat): Item {
    var q := First(head, '{');
    if q == |head| then Value(head, None, value)
    else if q + 1 == |head| then Unreadable
    else Value(head[..q], Some(head[q + 1..|head| - 1]), value)
  }

  /** All lines of a text, each ended by a newline. */
  function ReadText(text: string): seq<Item>
    decreases |text|
  {
    if text == "" then [] else
      var k := First(text, '\n');
      if k == |text| then [ReadItem(text)] else [ReadItem(text[..k])] + ReadText(text[k + 1..])
  }

  lemma ReadLine(line: string, rest: string)
    requires '\n' !in line
    ensures ReadText(line + "\n" + rest) == [ReadItem(line)] + ReadText(rest)
  {
    var text := line + "\n" + rest;
    FirstIs(line, '\n', "\n" + rest);
    assert line + ("\n" + rest) == text;
    assert text[..|line|] == line && text[|line| + 1..] == rest;
    hide ReadItem;
  }

  /** A text that is empty or ends in a newline. */
  predicate Lines(text: string) {
    text == "" || text[|text| - 1] == '\n'
  }

  lemma SplitLine(a: string) returns (line: string, rest: string)
    requires Lines(a) && a != ""
    ensures a == line + "\n" + rest && '\n' !in line && Lines(rest)
  {
    FirstSplits(a, '\n');
    var k := First(a, '\n');
    line, rest := a[..k], a[k + 1..];
  }

  lemma JoinLine(line: string, rest: string, b: string)
    requires '\n' !in line && ReadText(rest + b) == ReadText(rest) + ReadText(b)
    ensures ReadText(line + "\n" + rest + b) == ReadText(line + "\n" + rest) + ReadText(b)
  {
    hide ReadItem, ReadText;
    assert line + "\n" + rest + b == line + "\n" + (rest + b);
    ReadLine(line, rest);
    ReadLine(line, rest + b);
  }

  lemma {:induction false} ReadConcat(a: string, b: string)
    requires Lines(a)
    ensures ReadText(a + b) == ReadText(a) + ReadText(b)
    decreases |a|
  {
    hide ReadItem, Lines;
    if a == "" {
      assert a + b == b;
    } else {
      hide ReadText;
      var line, rest := SplitLine(a);
      ReadConcat(rest, b);
      JoinLine(line, rest, b);
    }
  }

  lemma OneLine(line: string)
    requires '\n' !in line
    ensures ReadText(line + "\n") == [ReadItem(line)]
  {
    assert ReadText("") == [];
    hide ReadItem, ReadText;
    ReadLine(line, "");
    assert line + "\n" + "" == line + "\n";
  }

  // ---------------------------------------------------------------- single lines

  /** A name that the format can carry: not empty, no comment sign in front, no blank, brace or
      newline. */
  predicate CleanName(name: string) {
    name != "" && name[0] != '#' && ' ' !in name && '{' !in name && '\n' !in name
  }

  predicate CleanTags(tags: Option<string>) { tags.Some? ==> '\n' !in tags.value }

  function Labelled(name: string, tags: Option<string>): string {
    if tags.Some? then name + "{" + tags.value + "}" else name
  }

  lemma NoComment(name: string, rest: string)
    requires name != "" && name[0] != '#'
    ensures !Begins(name + rest, HELP) && !Begins(name + rest, TYPE)
  {
    assert (name + rest)[0] != HELP[0] && (name + rest)[0] != TYPE[0];
  }

  lemma ReadHead(name: string, tags: Option<string>, value: nat)
    requires '{' !in name
    ensures ReadValue(Labelled(name, tags), value) == Value(name, tags, value)
  {
    var head := Labelled(name, tags);
    if tags.Some? {
      FirstIs(name, '{', "{" + tags.value + "}");
      assert name + ("{" + tags.value + "}") == head;
      assert head[..|name|] == name && head[|name| + 1..|head| - 1] == tags.value;
    } else {
      FirstIs(name, '{', "");
      assert name + "" == name;
    }
  }

  /** A sample line says its name, its labels and its value. */
  lemma SampleReadsBack(name: string, tags: Option<string>, value: uint64)
    requires CleanName(name) && CleanTags(tags)
    ensures ReadText(Sample(name, tags, value)) == [Value(name, tags, value)]
  {
    SampleItem(name, tags, value);
    SampleIsLine(name, tags, value);
    hide *;
    OneLine(Labelled(name, tags) + " " + Decimal(value));
  }

  lemma SampleIsLine(name: string, tags: Option<string>, value: uint64)
    requires CleanName(name) && CleanTags(tags)
    ensures Sample(name, tags, value) == Labelled(name, tags) + " " + Decimal(value) + "\n"
    ensures '\n' !in Labelled(name, tags) + " " + Decimal(value)
  {
    assert '\n' !in Decimal(value);
    hide Decimal;
  }

  lemma SampleLine(name: string, tags: Option<string>, digits: string)
    requires CleanName(name)
    ensures !Begins(Labelled(name, tags) + " " + digits, HELP) && !Begins(Labelled(name, tags) + " " + digits, TYPE)
  {
    var rest := if tags.Some? then "{" + tags.value + "} " + digits else " " + digits;
    assert Labelled(name, tags) + " " + digits == name + rest;
    NoComment(name, rest);
  }

  lemma SampleItem(name: string, tags: Option<string>, value: uint64)
    requires CleanName(name)
    ensures ReadItem(Labelled(name, tags) + " " + Decimal(value)) == Value(name, tags, value)
  {
    var head, digits := Labelled(name, tags), Decimal(value);
    var line := head + " " + digits;
    SampleLine(name, tags, digits);
    assert ' ' !in digits;
    DigitsOfDecimal(value);
    ReadHead(name, tags, value);
    hide Decimal, Digits, ReadValue, Begins, Labelled;
    LastIs(head, ' ', digits);
    assert head + [' '] + digits == line;
    assert line[..|head|] == head && line[|head| + 1..] == digits;
  }

  /** The labels of a bucket line: its bound, then the metric's own. */
  function BucketLabels(bound: string, tags: Option<string>): string {
    "le=\"" + bound + "\"" + (if tags.Some? then "," + tags.value else "")
  }

  /** The bound and the labels behind it. */
  function ReadBound(labels: string): Option<(string, Option<string>)> {
    if |labels| < 4 || labels[..4] != "le=\"" then None
    else
      var s := labels[4..];
      var k := First(s, '"');
      if k == |s| then None
      else if k + 1 == |s| then Some((s[..k], None))
      else if s[k + 1] == ',' then Some((s[..k], Some(s[k + 2..])))
      else None
  }

  lemma BoundReadsBack(bound: string, tags: Option<string>)
    requires '"' !in bound
    ensures ReadBound(BucketLabels(bound, tags)) == Some((bound, tags))
  {
    var labels := BucketLabels(bound, tags);
    var tail := if tags.Some? then "," + tags.value else "";
    var s := bound + ("\"" + tail);
    assert labels == "le=\"" + s;
    assert labels[..4] == "le=\"" && labels[4..] == s;
    FirstIs(bound, '"', "\"" + tail);
    assert s[..|bound|] == bound;
    if tags.Some? { assert s[|bound| + 1] == ',' && s[|bound| + 2..] == tags.value; }
  }

  lemma BucketReadsBack(name: string, tags: Option<string>, bound: string, value: uint64)
    requires CleanName(name) && CleanTags(tags) && '\n' !in bound
    ensures ReadText(BucketLine(name, tags, bound, value))
         == [Value(name + "_bucket", Some(BucketLabels(bound, tags)), value)]
  {
    SuffixClean(name, "_bucket");
    BucketIsSample(name, tags, bound, value);
    LabelsClean(bound, tags);
    hide *;
    SampleReadsBack(name + "_bucket", Some(BucketLabels(bound, tags)), value);
  }

  lemma BucketIsSample(name: string, tags: Option<string>, bound: string, value: uint64)
    ensures BucketLine(name, tags, bound, value) == Sample(name + "_bucket", Some(BucketLabels(bound, tags)), value)
  {
    hide Decimal;
    var open := name + "_bucket" + "{";
    assert name + "_bucket{le=\"" == open + "le=\"";
    if tags.Some? {
      LabelParts(open, bound, tags.value);
    } else {
      assert open + "le=\"" + bound + "\"} " == open + ("le=\"" + bound + "\"" + "") + "} ";
    }
  }

  lemma LabelParts(open: string, bound: string, tags: string)
    ensures open + "le=\"" + bound + "\"," + tags == open + ("le=\"" + bound + "\"" + ("," + tags))
  {
    assert "\"," == "\"" + ",";
  }

  lemma LabelsClean(bound: string, tags: Option<string>)
    requires CleanTags(tags) && '\n' !in bound
    ensures CleanTags(Some(BucketLabels(bound, tags)))
  {
  }

  lemma SuffixClean(name: string, suffix: string)
    requires CleanName(name) && ' ' !in suffix && '{' !in suffix && '\n' !in suffix
    ensures CleanName(name + suffix)
  {
    assert (name + suffix)[0] == name[0];
  }

  // ---------------------------------------------------------------- metrics

  function KindOf(m: Metric): MetricKind {
    match m
    case Counter(_, _, _, _) => CounterKind
    case Gauge(_, _, _, _) => GaugeKind
    case Histogram(_, _, _, _, _, _) => HistogramKind
  }

  predicate Clean(m: Metric) {
    CleanName(m.name) && CleanTags(m.tags) && '\n' !in m.description
  }

  /** The header names the metric, its description and its kind. */
  lemma HeaderReadsBack(m: Metric)
    requires Clean(m)
    ensures ReadText(Header(m)) == [Help(m.name, m.description), Type(m.name, KindOf(m))]
  {
    var help, kind := m.name + " " + m.description, m.name + " " + Kind(m);
    NamedReadsBack(m.name, m.description);
    NamedReadsBack(m.name, Kind(m));
    KindReadsBack(m);
    HeaderParts(m);
    hide *;
    CommentReadsBack(help, kind);
    HeaderLines(HELP + help, TYPE + kind);
  }

  lemma KindReadsBack(m: Metric)
    ensures ReadKind(Kind(m)) == KindOf(m) && '\n' !in Kind(m)
  {
  }

  lemma HeaderParts(m: Metric)
    requires Clean(m)
    ensures Header(m) == HELP + (m.name + " " + m.description) + "\n" + (TYPE + (m.name + " " + Kind(m)) + "\n")
    ensures '\n' !in HELP + (m.name + " " + m.description) && '\n' !in TYPE + (m.name + " " + Kind(m))
  {
    KindReadsBack(m);
    hide Kind;
  }

  lemma HeaderLines(help: string, kind: string)
    requires '\n' !in help && '\n' !in kind
    ensures ReadText(help + "\n" + (kind + "\n")) == [ReadItem(help), ReadItem(kind)]
  {
    assert ReadText("") == [];
    hide ReadItem, ReadText;
    ReadLine(help, kind + "\n");
    ReadLine(kind, "");
    assert kind + "\n" + "" == kind + "\n";
  }

  lemma CommentReadsBack(help: string, kind: string)
    ensures ReadItem(HELP + help) == ReadHelp(help) && ReadItem(TYPE + kind) == ReadType(kind)
  {
    assert (HELP + help)[|HELP|..] == help && (TYPE + kind)[|TYPE|..] == kind;
    assert (TYPE + kind)[2] != HELP[2];
    hide ReadHelp, ReadType;
  }

  lemma NamedReadsBack(name: string, rest: string)
    requires ' ' !in name
    ensures ReadHelp(name + " " + rest) == Help(name, rest) && ReadType(name + " " + rest) == Type(name, ReadKind(rest))
  {
    var s := name + " " + rest;
    FirstIs(name, ' ', " " + rest);
    assert name + (" " + rest) == s;
    assert s[..|name|] == name && s[|name| + 1..] == rest;
    hide ReadKind;
  }

  function BucketItems(m: Metric, n: nat): (items: seq<Item>)
    requires m.Histogram? && n <= |m.buckets|
    ensures |items| == n
  {
    seq(n, i requires 0 <= i < n =>
      Value(m.name + "_bucket", Some(BucketLabels(Decimal(m.buckets[i].key), m.tags)), m.buckets[i].value))
  }

  /** The values a metric exports, in order. */
  function BodyItems(m: Metric): seq<Item> {
    match m
    case Counter(name, tags, _, value) => [Value(name, tags, value)]
    case Gauge(name, tags, _, value) => [Value(name, tags, value)]
    case Histogram(name, tags, _, buckets, count, sum) =>
      BucketItems(m, |buckets|) + TotalItems(m)
  }

  /** The count under the bound "+Inf", then count and sum. */
  function TotalItems(m: Metric): seq<Item>
    requires m.Histogram?
  {
    [Value(m.name + "_bucket", Some(BucketLabels("+Inf", m.tags)), m.count), Value(m.name + "_count", m.tags, m.count),
     Value(m.name + "_sum", m.tags, m.sum)]
  }

  lemma {:induction false} BucketLinesReadBack(m: Metric, n: nat)
    requires m.Histogram? && Clean(m) && n <= |m.buckets|
    ensures ReadText(BucketLines(m, n)) == BucketItems(m, n) && Lines(BucketLines(m, n))
  {
    if n > 0 {
      var b := m.buckets[n - 1];
      assert '\n' !in Decimal(b.key);
      hide ReadText, Decimal, BucketLabels, CleanName, CleanTags, BucketItems, BucketLine, Lines;
      BucketLinesReadBack(m, n - 1);
      BucketReadsBack(m.name, m.tags, Decimal(b.key), b.value);
      ReadConcat(BucketLines(m, n - 1), BucketLine(m.name, m.tags, Decimal(b.key), b.value));
      BucketItemsStep(m, n);
      BucketEnds(m.name, m.tags, Decimal(b.key), b.value);
      LinesJoin(BucketLines(m, n - 1), BucketLine(m.name, m.tags, Decimal(b.key), b.value));
    }
  }

  lemma LinesJoin(a: string, b: string)
    requires Lines(a) && Lines(b)
    ensures Lines(a + b)
  {
    if b == "" { assert a + b == a; }
  }

  lemma BucketItemsStep(m: Metric, n: nat)
    requires m.Histogram? && 0 < n <= |m.buckets|
    ensures var b := m.buckets[n - 1];
            BucketItems(m, n) == BucketItems(m, n - 1) + [Value(m.name + "_bucket", Some(BucketLabels(Decimal(b.key), m.tags)), b.value)]
  {
    hide Decimal, BucketLabels;
  }

  lemma TotalsReadBack(m: Metric)
    requires m.Histogram? && Clean(m)
    ensures Lines(Totals(m)) && ReadText(Totals(m)) == TotalItems(m)
  {
    var inf, counts, sums := BucketLine(m.name, m.tags, "+Inf", m.count), Sample(m.name + "_count", m.tags, m.count),
                             Sample(m.name + "_sum", m.tags, m.sum);
    SuffixClean(m.name, "_count");
    SuffixClean(m.name, "_sum");
    hide ReadText, BucketLabels, CleanName, CleanTags, Decimal, Sample, BucketLine, Lines;
    BucketReadsBack(m.name, m.tags, "+Inf", m.count);
    BucketEnds(m.name, m.tags, "+Inf", m.count);
    SampleReadsBack(m.name + "_count", m.tags, m.count);
    SampleEnds(m.name + "_count", m.tags, m.count);
    SampleReadsBack(m.name + "_sum", m.tags, m.sum);
    SampleEnds(m.name + "_sum", m.tags, m.sum);
    ThreeLines(inf, counts, sums);
  }

  lemma ThreeLines(a: string, b: string, c: string)
    requires Lines(a) && Lines(b) && Lines(c)
    ensures Lines(a + b + c) && ReadText(a + b + c) == ReadText(a) + ReadText(b) + ReadText(c)
  {
    hide ReadText, Lines;
    LinesJoin(a, b);
    LinesJoin(a + b, c);
    ReadConcat(a, b);
    ReadConcat(a + b, c);
  }

  lemma BodyReadsBack(m: Metric)
    requires Clean(m)
    ensures ReadText(Body(m)) == BodyItems(m) && Lines(Body(m))
  {
    hide ReadText, BucketItems, BucketLines, BucketLine, Sample, BucketLabels, Lines, CleanName, CleanTags, Totals;
    if m.Histogram? {
      BucketLinesReadBack(m, |m.buckets|);
      TotalsReadBack(m);
      ReadConcat(BucketLines(m, |m.buckets|), Totals(m));
      LinesJoin(BucketLines(m, |m.buckets|), Totals(m));
      BodyParts(m);
    } else {
      SampleReadsBack(m.name, m.tags, m.value);
      SampleEnds(m.name, m.tags, m.value);
    }
  }

  lemma BodyParts(m: Metric)
    requires m.Histogram?
    ensures Body(m) == BucketLines(m, |m.buckets|) + Totals(m)
  {
    hide BucketLines, BucketLine, Sample;
  }

  lemma SampleEnds(name: string, tags: Option<string>, value: uint64)
    ensures Sample(name, tags, value) != "" && Lines(Sample(name, tags, value))
  {
    hide Decimal;
  }

  lemma BucketEnds(name: string, tags: Option<string>, bound: string, value: uint64)
    ensures BucketLine(name, tags, bound, value) != "" && Lines(BucketLine(name, tags, bound, value))
  {
    hide Decimal;
  }

  // ---------------------------------------------------------------- the export

  function HeaderItems(m: Metric): seq<Item> {
    [Help(m.name, m.description), Type(m.name, KindOf(m))]
  }

  /** What the export of the first `n` metrics should say. */
  function ItemsTo(metrics: seq<Metric>, n: nat): seq<Item>
    requires n <= |metrics|
  {
    if n == 0 then []
    else ItemsTo(metrics, n - 1) + (if FirstUse(metrics, n - 1) then HeaderItems(metrics[n - 1]) else [])
         + BodyItems(metrics[n - 1])
  }

  lemma MetricReadsBack(m: Metric, nameUsed: bool)
    requires Clean(m)
    ensures ReadText(MetricText(m, nameUsed)) == (if nameUsed then [] else HeaderItems(m)) + BodyItems(m)
    ensures Lines(MetricText(m, nameUsed))
  {
    BodyReadsBack(m);
    HeaderReadsBack(m);
    hide ReadText, BodyItems, Body, Clean;
    if nameUsed {
      assert "" + Body(m) == Body(m) && [] + BodyItems(m) == BodyItems(m);
    } else {
      ReadConcat(Header(m), Body(m));
    }
  }

  /** The exported text says, line by line, exactly the names, descriptions, kinds, labels and
      values of the metrics, in list order. */
  lemma {:induction false} ExportReadsBack(metrics: seq<Metric>, n: nat)
    requires n <= |metrics| && forall i :: 0 <= i < |metrics| ==> Clean(metrics[i])
    ensures ReadText(ExportTo(metrics, n)) == ItemsTo(metrics, n) && Lines(ExportTo(metrics, n))
  {
    hide MetricText, FirstUse, BodyItems, HeaderItems, Clean;
    if n > 0 {
      hide ReadText, Lines;
      var m, used := metrics[n - 1], !FirstUse(metrics, n - 1);
      ExportReadsBack(metrics, n - 1);
      MetricReadsBack(m, used);
      ReadConcat(ExportTo(metrics, n - 1), MetricText(m, used));
      LinesJoin(ExportTo(metrics, n - 1), MetricText(m, used));
      Regroup(ItemsTo(metrics, n - 1), if used then [] else HeaderItems(m), BodyItems(m));
    }
  }

  lemma Regroup(a: seq<Item>, b: seq<Item>, c: seq<Item>)
    ensures a + (b + c) == a + b + c
  {
  }

  /** A histogram's own values can be picked out: the keys of its buckets as bounds with their
      values, the count under the bound "+Inf", then count and sum. */
  lemma HistogramReadsBack(m: Metric, i: nat)
    requires m.Histogram? && Clean(m)
    ensures var items, n := ReadText(Body(m)), |m.buckets|;
            && |items| == n + 3
            && items[n] == Value(m.name + "_bucket", Some(BucketLabels("+Inf", m.tags)), m.count)
            && items[n + 1] == Value(m.name + "_count", m.tags, m.count)
            && items[n + 2] == Value(m.name + "_sum", m.tags, m.sum)
            && (i < n ==> ReadsBucket(items[i], m.name + "_bucket", m.tags, m.buckets[i]))
  {
    BodyReadsBack(m);
    hide ReadText, Body, BucketLabels, Decimal, ReadsBucket;
    if i < |m.buckets| { BucketItemReads(m, i); }
  }

  /** The item says the bucket's key as its bound, the metric's labels, and the bucket's value. */
  predicate ReadsBucket(item: Item, name: string, tags: Option<string>, b: Bucket) {
    && item.Value? && item.name == name && item.value == b.value && item.labels.Some?
    && var bound := ReadBound(item.labels.value);
    && bound.Some? && Digits(bound.value.0, 0) == b.key && bound.value.1 == tags
  }

  lemma BucketItemReads(m: Metric, i: nat)
    requires m.Histogram? && i < |m.buckets|
    ensures ReadsBucket(BucketItems(m, |m.buckets|)[i], m.name + "_bucket", m.tags, m.buckets[i])
  {
    assert '"' !in Decimal(m.buckets[i].key);
    BoundReadsBack(Decimal(m.buckets[i].key), m.tags);
    DigitsOfDecimal(m.buckets[i].key);
    hide BucketLabels, Decimal, Digits, ReadBound;
  }
}
