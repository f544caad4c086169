/** VmMetricsGetPrometheusData of vmcommon/vmmetrics.c: every metric is measured with a null
    buffer, the buffer grows, and the same formatter then writes the text into it. */
module MetricsExport {
  import opened Bytes
  import opened Text

  const BUFFER_SIZE: nat := 1024

  /** A list entry with the values it has during the export. */
  datatype Metric =
    | Counter(name: string, tags: Option<string>, description: string, value: uint64)
    | Gauge(name: string, tags: Option<string>, description: string, value: uint64)
    | Histogram(name: string, tags: Option<string>, description: string,
                buckets: seq<Bucket>, count: uint64, sum: uint64)

  datatype Bucket = Bucket(key: uint64, value: uint64)

  // ---------------------------------------------------------------- the text

  function Kind(m: Metric): string {
    match m
    case Counter(_, _, _, _) => "counter"
    case Gauge(_, _, _, _) => "gauge"
    case Histogram(_, _, _, _, _, _) => "histogram"
  }

  function Header(m: Metric): string {
    "# HELP " + m.name + " " + m.description + "\n# TYPE " + m.name + " " + Kind(m) + "\n"
  }

  /** `name{label} value`, or `name value` without a label. */
  function Sample(name: string, tags: Option<string>, value: uint64): string {
    if tags.Some? then name + "{" + tags.value + "} " + Decimal(value) + "\n"
    else name + " " + Decimal(value) + "\n"
  }

  function BucketLine(name: string, tags: Option<string>, bound: string, value: uint64): string {
    if tags.Some? then name + "_bucket{le=\"" + bound + "\"," + tags.value + "} " + Decimal(value) + "\n"
    else name + "_bucket{le=\"" + bound + "\"} " + Decimal(value) + "\n"
  }

  function BucketLines(m: Metric, n: nat): string
    requires m.Histogram? && n <= |m.buckets|
  {
    if n == 0 then "" else
      BucketLines(m, n - 1) + BucketLine(m.name, m.tags, Decimal(m.buckets[n - 1].key), m.buckets[n - 1].value)
  }

  function Body(m: Metric): string {
    match m
    case Counter(name, tags, _, value) => Sample(name, tags, value)
    case Gauge(name, tags, _, value) => Sample(name, tags, value)
    case Histogram(name, tags, _, buckets, count, sum) =>
      BucketLines(m, |buckets|) + BucketLine(name, tags, "+Inf", count)
      + Sample(name + "_count", tags, count) + Sample(name + "_sum", tags, sum)
  }

  function MetricText(m: Metric, nameUsed: bool): string {
    (if nameUsed then "" else Header(m)) + Body(m)
  }

  /** No earlier metric has the same name, letter case aside. */
  predicate FirstUse(metrics: seq<Metric>, i: nat)
    requires i < |metrics|
  {
    forall j :: 0 <= j < i ==> !SameText(metrics[j].name, metrics[i].name)
  }

  /** The text of the first `n` metrics in list order. */
  function ExportTo(metrics: seq<Metric>, n: nat): string
    requires n <= |metrics|
  {
    if n == 0 then "" else ExportTo(metrics, n - 1) + MetricText(metrics[n - 1], !FirstUse(metrics, n - 1))
  }

  /** Every metric shares its name with exactly one metric that carries the header, and that one
      comes first. */
  lemma {:induction false} OneHeaderPerName(metrics: seq<Metric>, i: nat) returns (first: nat)
    requires i < |metrics|
    ensures first <= i && SameText(metrics[first].name, metrics[i].name) && FirstUse(metrics, first)
    ensures forall j :: 0 <= j < |metrics| && SameText(metrics[j].name, metrics[i].name) && FirstUse(metrics, j) ==> j == first
    decreases i
  {
    hide Lower;
    if FirstUse(metrics, i) {
      first := i;
    } else {
      var j :| 0 <= j < i && SameText(metrics[j].name, metrics[i].name);
      first := OneHeaderPerName(metrics, j);
    }
  }

  // ---------------------------------------------------------------- bounded printing

  /** The buffer after the nonempty text `p` and its NUL went to offset `off`. */
  function Patched(orig: seq<char>, off: nat, p: string): seq<char>
    requires p != "" ==> off + |p| < |orig|
  {
    if p == "" then orig else orig[..off] + p + ['\0'] + orig[off + |p| + 1..]
  }

  lemma PatchMore(orig: seq<char>, off: nat, p: string, q: string)
    requires q != "" && off + |p| + |q| < |orig|
    ensures Patched(Patched(orig, off, p), off + |p|, q) == Patched(orig, off, p + q)
  {
    var once := Patched(orig, off, p);
    assert |once| == |orig|;
    assert once[..off + |p|] == orig[..off] + p;
    assert once[off + |p| + |q| + 1..] == orig[off + |p| + |q| + 1..];
    if p == "" { assert p + q == q; }
  }

  /** snprintf: at most `n` characters with the NUL, none for a zero bound; reports the full
      length either way. */
  method Snprintf(buf: array<char>, off: nat, n: nat, s: string) returns (length: nat)
    requires s != "" && (n > 0 ==> off + (if |s| < n then |s| + 1 else n) <= buf.Length)
    modifies buf
    ensures length == |s|
    ensures n == 0 ==> buf[..] == old(buf[..])
    ensures n > 0 ==> var shown := if |s| < n then s else s[..n - 1];
                      buf[..] == old(buf[..])[..off] + shown + ['\0'] + old(buf[..])[off + |shown| + 1..]
  {
    length := |s|;
    if n == 0 { return; }
    var k := if |s| < n then |s| else n - 1;
    forall i | 0 <= i < k { buf[off + i] := s[i]; }
    buf[off + k] := '\0';
  }

  /** What a formatter has done after printing `p`: nothing to the buffer when it measures. */
  ghost predicate Printed(now: seq<char>, orig: seq<char>, off: nat, n: nat, p: string) {
    if n == 0 then now == orig else (p != "" ==> off + |p| < |orig|) && now == Patched(orig, off, p)
  }

  /** One more print of a formatter that has already printed `p`. */
  method Emit(buf: array<char>, off: nat, n: nat, ghost orig: seq<char>, ghost p: string, len: nat, s: string)
    returns (len': nat)
    requires s != "" && len == |p| && Printed(buf[..], orig, off, n, p)
    requires n > 0 ==> |p| + |s| < n && off + n <= |orig|
    modifies buf
    ensures len' == |p + s| && Printed(buf[..], orig, off, n, p + s)
  {
    len' := Snprintf(buf, off + len, n, s);
    len' := len + len';
    if n > 0 { PatchMore(orig, off, p, s); }
  }

  /** _VmMetricsGetCounterData and _VmMetricsGetGaugeData, which differ in the kind they name. */
  method GetSampleData(m: Metric, buf: array<char>, off: nat, n: nat, nameUsed: bool) returns (len: nat)
    requires !m.Histogram? && Room(m, buf[..], off, n, nameUsed)
    modifies buf
    ensures len == |MetricText(m, nameUsed)| + 1
    ensures Printed(buf[..], old(buf[..]), off, n, MetricText(m, nameUsed))
  {
    ghost var orig, p := buf[..], "";
    SampleNotEmpty(m.name, m.tags, m.value);
    hide Header, Sample;
    len := 0;
    if !nameUsed {
      HeaderNotEmpty(m);
      len := Emit(buf, off, n, orig, p, len, Header(m));
      p := Header(m);
      assert "" + Header(m) == Header(m);
    }
    len := Emit(buf, off, n, orig, p, len, Sample(m.name, m.tags, m.value));
    len := len + 1;
  }

  /** A measuring call has a zero bound; a writing call has exactly the measured room. */
  ghost predicate Room(m: Metric, buf: seq<char>, off: nat, n: nat, nameUsed: bool) {
    n > 0 ==> n == |MetricText(m, nameUsed)| + 1 && off + n <= |buf|
  }

  lemma HeaderNotEmpty(m: Metric)
    ensures Header(m) != ""
  {
  }

  lemma SampleNotEmpty(name: string, tags: Option<string>, value: uint64)
    ensures Sample(name, tags, value) != ""
  {
  }

  lemma BucketLineNotEmpty(name: string, tags: Option<string>, bound: string, value: uint64)
    ensures BucketLine(name, tags, bound, value) != ""
  {
  }

  /** The bucket loop of _VmMetricsGetHistogramData, behind the text `head`. */
  method EmitBuckets(m: Metric, buf: array<char>, off: nat, n: nat, ghost orig: seq<char>, ghost head: string, len: nat)
    returns (len': nat)
    requires m.Histogram? && len == |head| && Printed(buf[..], orig, off, n, head)
    requires n > 0 ==> |head + BucketLines(m, |m.buckets|)| < n && off + n <= |orig|
    modifies buf
    ensures len' == |head + BucketLines(m, |m.buckets|)|
    ensures Printed(buf[..], orig, off, n, head + BucketLines(m, |m.buckets|))
  {
    hide BucketLine, Printed, Decimal;
    len' := len;
    assert head + BucketLines(m, 0) == head;
    for i := 0 to |m.buckets|
      invariant len' == |head + BucketLines(m, i)|
      invariant Printed(buf[..], orig, off, n, head + BucketLines(m, i))
    {
      BucketLinesGrow(m, i + 1, |m.buckets|);
      var line := BucketLine(m.name, m.tags, Decimal(m.buckets[i].key), m.buckets[i].value);
      BucketLineNotEmpty(m.name, m.tags, Decimal(m.buckets[i].key), m.buckets[i].value);
      assert head + BucketLines(m, i) + line == head + BucketLines(m, i + 1);
      len' := Emit(buf, off, n, orig, head + BucketLines(m, i), len', line);
    }
  }

  function Totals(m: Metric): string
    requires m.Histogram?
  {
    BucketLine(m.name, m.tags, "+Inf", m.count)
    + Sample(m.name + "_count", m.tags, m.count) + Sample(m.name + "_sum", m.tags, m.sum)
  }

  /** The three closing lines of _VmMetricsGetHistogramData, behind the text `p`. */
  method EmitTotals(m: Metric, buf: array<char>, off: nat, n: nat, ghost orig: seq<char>, ghost p: string, len: nat)
    returns (len': nat)
    requires m.Histogram? && len == |p| && Printed(buf[..], orig, off, n, p)
    requires n > 0 ==> |p + Totals(m)| < n && off + n <= |orig|
    modifies buf
    ensures len' == |p + Totals(m)| && Printed(buf[..], orig, off, n, p + Totals(m))
  {
    var inf, counts, sums := BucketLine(m.name, m.tags, "+Inf", m.count),
                             Sample(m.name + "_count", m.tags, m.count), Sample(m.name + "_sum", m.tags, m.sum);
    BucketLineNotEmpty(m.name, m.tags, "+Inf", m.count);
    SampleNotEmpty(m.name + "_count", m.tags, m.count);
    SampleNotEmpty(m.name + "_sum", m.tags, m.sum);
    hide Sample, BucketLine, Printed;
    assert p + Totals(m) == p + inf + counts + sums;
    len' := Emit(buf, off, n, orig, p, len, inf);
    len' := Emit(buf, off, n, orig, p + inf, len', counts);
    len' := Emit(buf, off, n, orig, p + inf + counts, len', sums);
  }

  /** _VmMetricsGetHistogramData. */
  method GetHistogramData(m: Metric, buf: array<char>, off: nat, n: nat, nameUsed: bool) returns (len: nat)
    requires m.Histogram? && Room(m, buf[..], off, n, nameUsed)
    modifies buf
    ensures len == |MetricText(m, nameUsed)| + 1
    ensures Printed(buf[..], old(buf[..]), off, n, MetricText(m, nameUsed))
  {
    ghost var orig, head := buf[..], if nameUsed then "" else Header(m);
    HistogramParts(m, nameUsed);
    HeaderNotEmpty(m);
    NothingPrinted(buf[..], off, n);
    hide Header, Body, Printed, MetricText, BucketLines, Totals;
    len := 0;
    if !nameUsed {
      assert "" + Header(m) == Header(m);
      len := Emit(buf, off, n, orig, "", len, Header(m));
    }
    len := EmitBuckets(m, buf, off, n, orig, head, len);
    len := EmitTotals(m, buf, off, n, orig, head + BucketLines(m, |m.buckets|), len);
    len := len + 1;
  }

  lemma HistogramParts(m: Metric, nameUsed: bool)
    requires m.Histogram?
    ensures MetricText(m, nameUsed) ==
            (if nameUsed then "" else Header(m)) + BucketLines(m, |m.buckets|) + Totals(m)
  {
    hide Header, BucketLines, BucketLine, Sample;
    var head, lines := if nameUsed then "" else Header(m), BucketLines(m, |m.buckets|);
    assert head + (lines + BucketLine(m.name, m.tags, "+Inf", m.count)
                   + Sample(m.name + "_count", m.tags, m.count) + Sample(m.name + "_sum", m.tags, m.sum))
        == head + lines + Totals(m);
  }

  lemma NothingPrinted(orig: seq<char>, off: nat, n: nat)
    ensures Printed(orig, orig, off, n, "")
  {
  }

  lemma {:induction false} BucketLinesGrow(m: Metric, i: nat, n: nat)
    requires m.Histogram? && i <= n <= |m.buckets|
    ensures |BucketLines(m, i)| <= |BucketLines(m, n)|
  {
    hide BucketLine;
    if i < n { BucketLinesGrow(m, i, n - 1); }
  }

  method GetData(m: Metric, buf: array<char>, off: nat, n: nat, nameUsed: bool) returns (len: nat)
    requires Room(m, buf[..], off, n, nameUsed)
    modifies buf
    ensures len == |MetricText(m, nameUsed)| + 1
    ensures Printed(buf[..], old(buf[..]), off, n, MetricText(m, nameUsed))
  {
    if m.Histogram? {
      len := GetHistogramData(m, buf, off, n, nameUsed);
    } else {
      len := GetSampleData(m, buf, off, n, nameUsed);
    }
  }

  // ---------------------------------------------------------------- the export

  function NamesTo(metrics: seq<Metric>, n: nat): set<string>
    requires n <= |metrics|
  {
    set j | 0 <= j < n :: Lower(metrics[j].name)
  }

  lemma NamesNone(metrics: seq<Metric>)
    ensures NamesTo(metrics, 0) == {}
    ensures ExportTo(metrics, 0) == ""
  {
  }

  /** A name is in the map exactly when an earlier metric has it. */
  lemma NamesStep(metrics: seq<Metric>, i: nat)
    requires i < |metrics|
    ensures Lower(metrics[i].name) in NamesTo(metrics, i) <==> !FirstUse(metrics, i)
    ensures NamesTo(metrics, i + 1) == NamesTo(metrics, i) + {Lower(metrics[i].name)}
    ensures ExportTo(metrics, i + 1) == ExportTo(metrics, i) + MetricText(metrics[i], !FirstUse(metrics, i))
  {
    hide Lower;
  }

  /** The first `dataLen` characters of the buffer are `text`, a NUL follows, and less than one
      buffer step is unused. */
  ghost predicate Holds(data: array<char>, dataLen: nat, text: string)
    reads data
  {
    dataLen < data.Length <= dataLen + 1024 && data[..dataLen] == text && data[dataLen] == '\0'
  }

  method EmptyBuffer() returns (data: array<char>)
    ensures fresh(data) && Holds(data, 0, "")
  {
    data := new char[BUFFER_SIZE](_ => '\0');
  }

  /** VmMetricsGetPrometheusData: the text is the concatenation of the metrics' texts, it ends in
      a NUL, and all of it lies inside the allocated buffer. */
  method GetPrometheusData(metrics: seq<Metric>) returns (data: array<char>, dataLen: nat)
    ensures fresh(data) && Holds(data, dataLen, ExportTo(metrics, |metrics|))
  {
    data := EmptyBuffer();
    dataLen := 0;
    var names: set<string> := {};
    NamesNone(metrics);
    hide MetricText, FirstUse, NamesTo, Lower, ExportTo, Holds;
    for i := 0 to |metrics|
      invariant fresh(data) && Holds(data, dataLen, ExportTo(metrics, i))
      invariant names == NamesTo(metrics, i)
    {
      var m := metrics[i];
      var nameUsed := Lower(m.name) in names;
      NamesStep(metrics, i);
      names := names + {Lower(m.name)};
      data, dataLen := Append(data, dataLen, ExportTo(metrics, i), m, nameUsed);
    }
  }

  /** One round of the export loop: measure, grow in steps of the buffer size, write. */
  method Append(data: array<char>, dataLen: nat, ghost text: string, m: Metric, nameUsed: bool)
    returns (data': array<char>, dataLen': nat)
    requires Holds(data, dataLen, text)
    modifies data
    ensures data' == data || fresh(data')
    ensures Holds(data', dataLen', text + MetricText(m, nameUsed))
  {
    hide MetricText, Patched;
    var bufLen := GetData(m, data, 0, 0, nameUsed);
    var space := data.Length;
    while dataLen + bufLen > space
      invariant data.Length <= space
      invariant space == data.Length || space < dataLen + bufLen + BUFFER_SIZE
    {
      space := space + BUFFER_SIZE;
    }
    data' := Grow(data, space);
    ghost var orig := data'[..];
    var written := GetData(m, data', dataLen, bufLen, nameUsed);
    dataLen' := dataLen + written;
    dataLen' := dataLen' - 1;
    PatchedText(orig, dataLen, MetricText(m, nameUsed), data'[..]);
    assert orig[..dataLen] == text;
  }

  lemma PatchedText(orig: seq<char>, off: nat, p: string, now: seq<char>)
    requires off + |p| < |orig| && now == Patched(orig, off, p)
    requires p == "" ==> orig[off] == '\0'
    ensures |now| == |orig| && now[..off + |p|] == orig[..off] + p && now[off + |p|] == '\0'
  {
  }

  /** VmReallocateMemory to a size at least as large. */
  method Grow(data: array<char>, space: nat) returns (data': array<char>)
    requires data.Length <= space
    ensures data'.Length == space && data'[..data.Length] == data[..]
    ensures data' == data || fresh(data')
  {
    if space == data.Length { return data; }
    data' := new char[space](_ => '\0');
    forall i | 0 <= i < data.Length { data'[i] := data[i]; }
  }
}
