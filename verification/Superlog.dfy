/** lwraft/client/superlogutil.c: groups logged LDAP operations by the selected columns. */
module Superlog {
  import opened Bytes
  import opened Text

  datatype Entry = Entry(loginDN: string, clientIP: string, port: uint32, operation: string, text: string,
                         errorCode: uint32, start: uint64, end: uint64)

  /** Which of the six grouping columns are selected. */
  datatype Columns = Columns(loginDN: bool, ip: bool, port: bool, operation: bool, text: bool, errorCode: bool)

  /** The six column values of an entry; an unselected column is NULL. */
  type Values = v: seq<Option<string>> | |v| == 6 witness [None, None, None, None, None, None]

  datatype Row = Row(values: Values, totalTime: uint64, count: nat)

  /** A finished row also has the average time in its AVG_TIME column. */
  datatype TableRow = TableRow(row: Row, average: string)

  function Pick(selected: bool, value: string): Option<string> {
    if selected then Some(value) else None
  }

  function ValuesOf(e: Entry, c: Columns): Values {
    [Pick(c.loginDN, e.loginDN), Pick(c.ip, e.clientIP), Pick(c.port, Decimal(e.port)),
     Pick(c.operation, e.operation), Pick(c.text, e.text), Pick(c.errorCode, Decimal(e.errorCode))]
  }

  function Shown(v: Option<string>): string {
    if v.Some? then v.value else "--"
  }

  function Join(v: seq<Option<string>>): string
    requires v != []
  {
    if |v| == 1 then Shown(v[0]) else Shown(v[0]) + "||" + Join(v[1..])
  }

  /** _generateHashMapKeyString. */
  function Key(e: Entry, c: Columns): string {
    Join(ValuesOf(e, c))
  }

  /** The 64-bit difference of the two timestamps. */
  function Elapsed(e: Entry): uint64 {
    (e.end - e.start) % WORD
  }

  // ---------------------------------------------------------------- keys separate tuples

  predicate NoBar(s: string) { '|' !in s }

  lemma FirstBar(a: string, x: string, b: string, y: string)
    requires NoBar(a) && NoBar(b) && a + "||" + x == b + "||" + y
    ensures a == b && x == y
  {
    var s := a + "||" + x;
    assert s[|a|] == '|' && s[|b|] == '|';
    assert forall i :: 0 <= i < |a| ==> s[i] == a[i];
    assert forall i :: 0 <= i < |b| ==> s[i] == b[i];
    assert |a| == |b|;
    assert a == s[..|a|] && b == s[..|b|];
    assert x == s[|a| + 2..] && y == s[|b| + 2..];
  }

  /** The mirror of FirstBar. */
  lemma LastBar(x: string, a: string, y: string, b: string)
    requires NoBar(a) && NoBar(b) && x + "||" + a == y + "||" + b
    ensures x == y && a == b
  {
    var s := x + "||" + a;
    assert s[|x| + 1] == '|' && s[|y| + 1] == '|';
    assert forall i :: |x| + 2 <= i < |s| ==> s[i] == a[i - |x| - 2];
    assert forall i :: |y| + 2 <= i < |s| ==> s[i] == b[i - |y| - 2];
    assert |x| == |y|;
    assert x == s[..|x|] && y == s[..|y|];
    assert a == s[|x| + 2..] && b == s[|y| + 2..];
  }

  lemma {:induction false} JoinLast(v: seq<Option<string>>)
    requires |v| > 1
    ensures Join(v) == Join(v[..|v| - 1]) + "||" + Shown(v[|v| - 1])
  {
    hide Shown;
    if |v| > 2 {
      JoinLast(v[1..]);
      assert v[1..][..|v| - 2] == v[..|v| - 1][1..];
      var front, last := Join(v[..|v| - 1][1..]), Shown(v[|v| - 1]);
      assert Shown(v[0]) + "||" + (front + "||" + last) == Shown(v[0]) + "||" + front + "||" + last;
    }
  }

  /** Free of bars except perhaps in column `k`. */
  predicate NoBarsBut(v: seq<Option<string>>, k: nat) {
    forall i :: 0 <= i < |v| && i != k ==> NoBar(Shown(v[i]))
  }

  predicate SameShape(v: seq<Option<string>>, w: seq<Option<string>>) {
    |v| == |w| && forall i :: 0 <= i < |v| ==> (v[i].Some? <==> w[i].Some?)
  }

  /** One column may hold bars: the columns before it are split off from the left, the ones
      behind it from the right. */
  lemma {:induction false} JoinInjectiveBut(v: seq<Option<string>>, w: seq<Option<string>>, k: nat)
    requires SameShape(v, w) && k < |v| && NoBarsBut(v, k) && NoBarsBut(w, k) && Join(v) == Join(w)
    ensures v == w
    decreases |v|
  {
    hide NoBar, Shown;
    if |v| == 1 {
      OneShown(v[0], w[0]);
    } else if k > 0 {
      FirstBar(Shown(v[0]), Join(v[1..]), Shown(w[0]), Join(w[1..]));
      JoinInjectiveBut(v[1..], w[1..], k - 1);
      OneShown(v[0], w[0]);
      assert v == [v[0]] + v[1..] && w == [w[0]] + w[1..];
    } else {
      var n := |v| - 1;
      JoinLast(v);
      JoinLast(w);
      LastBar(Join(v[..n]), Shown(v[n]), Join(w[..n]), Shown(w[n]));
      JoinInjectiveBut(v[..n], w[..n], k);
      OneShown(v[n], w[n]);
      assert v == v[..n] + [v[n]] && w == w[..n] + [w[n]];
    }
  }

  lemma OneShown(a: Option<string>, b: Option<string>)
    requires Shown(a) == Shown(b) && (a.Some? <==> b.Some?)
    ensures a == b
  {
  }

  /** Equal keys mean equal columns for two entries with bars in at most one and the same column. */
  lemma SeparatesBut(d: Entry, e: Entry, c: Columns, k: nat)
    requires k < 6 && NoBarsBut(ValuesOf(d, c), k) && NoBarsBut(ValuesOf(e, c), k)
    ensures Key(d, c) == Key(e, c) <==> ValuesOf(d, c) == ValuesOf(e, c)
  {
    SameColumns(d, e, c);
    hide NoBarsBut, SameShape, Join, ValuesOf;
    if Key(d, c) == Key(e, c) { JoinInjectiveBut(ValuesOf(d, c), ValuesOf(e, c), k); }
  }

  lemma SameColumns(d: Entry, e: Entry, c: Columns)
    ensures SameShape(ValuesOf(d, c), ValuesOf(e, c))
  {
    hide Decimal;
  }

  /** No text column holds a bar. */
  predicate Plain(e: Entry) {
    NoBar(e.loginDN) && NoBar(e.clientIP) && NoBar(e.operation) && NoBar(e.text)
  }

  lemma PlainValues(e: Entry, c: Columns, k: nat)
    requires Plain(e)
    ensures NoBarsBut(ValuesOf(e, c), k)
  {
    hide Decimal;
    assert NoBar(Decimal(e.port)) && NoBar(Decimal(e.errorCode)) && NoBar("--");
  }

  /** The selected fields agree. */
  predicate SameFields(d: Entry, e: Entry, c: Columns) {
    && (c.loginDN ==> d.loginDN == e.loginDN) && (c.ip ==> d.clientIP == e.clientIP) && (c.port ==> d.port == e.port)
    && (c.operation ==> d.operation == e.operation) && (c.text ==> d.text == e.text)
    && (c.errorCode ==> d.errorCode == e.errorCode)
  }

  /** Two entries have one tuple of columns exactly when their selected fields agree. */
  lemma TupleIsFields(d: Entry, e: Entry, c: Columns)
    ensures ValuesOf(d, c) == ValuesOf(e, c) <==> SameFields(d, e, c)
  {
    if Decimal(d.port) == Decimal(e.port) { DecimalInjective(d.port, e.port); }
    if Decimal(d.errorCode) == Decimal(e.errorCode) { DecimalInjective(d.errorCode, e.errorCode); }
    hide Decimal;
    if ValuesOf(d, c) == ValuesOf(e, c) {
      assert forall i :: 0 <= i < 6 ==> ValuesOf(d, c)[i] == ValuesOf(e, c)[i];
    }
  }

  lemma KeySeparates(d: Entry, e: Entry, c: Columns)
    requires Plain(d) && Plain(e)
    ensures Key(d, c) == Key(e, c) <==> ValuesOf(d, c) == ValuesOf(e, c)
    ensures Key(d, c) == Key(e, c) <==> SameFields(d, e, c)
  {
    TupleIsFields(d, e, c);
    PlainValues(d, c, 0);
    PlainValues(e, c, 0);
    hide Key, ValuesOf, NoBarsBut, Plain, SameFields;
    SeparatesBut(d, e, c, 0);
  }

  // ---------------------------------------------------------------- which selections separate tuples

  /** The columns whose text comes from outside; the other two are decimal numbers. */
  predicate TextColumn(k: nat) { k == 0 || k == 1 || k == 3 || k == 4 }

  predicate Selected(c: Columns, k: nat) {
    match k
    case 0 => c.loginDN
    case 1 => c.ip
    case 2 => c.port
    case 3 => c.operation
    case 4 => c.text
    case _ => c.errorCode
  }

  /** At most one text column is selected. */
  predicate OneText(c: Columns) {
    forall p: nat, q: nat {:trigger Selected(c, p), Selected(c, q)} ::
      p < q < 6 && TextColumn(p) && TextColumn(q) ==> !(Selected(c, p) && Selected(c, q))
  }

  /** Equal keys always mean equal selected columns. */
  ghost predicate Separating(c: Columns) {
    forall d: Entry, e: Entry :: Key(d, c) == Key(e, c) ==> ValuesOf(d, c) == ValuesOf(e, c)
  }

  lemma ValuesBut(e: Entry, c: Columns, k: nat)
    requires k < 6 && forall p: nat :: p < 6 && p != k && TextColumn(p) ==> !Selected(c, p)
    ensures NoBarsBut(ValuesOf(e, c), k)
  {
    hide Decimal;
    assert NoBar(Decimal(e.port)) && NoBar(Decimal(e.errorCode)) && NoBar("--");
    assert Selected(c, 0) == c.loginDN && Selected(c, 1) == c.ip && Selected(c, 3) == c.operation && Selected(c, 4) == c.text;
  }

  lemma OneTextSeparates(d: Entry, e: Entry, c: Columns, k: nat)
    requires k < 6 && forall p: nat :: p < 6 && p != k && TextColumn(p) ==> !Selected(c, p)
    ensures Key(d, c) == Key(e, c) <==> ValuesOf(d, c) == ValuesOf(e, c)
  {
    ValuesBut(d, c, k);
    ValuesBut(e, c, k);
    hide Key, ValuesOf, NoBarsBut;
    SeparatesBut(d, e, c, k);
  }

  /** Every column behind its delimiter. */
  function Delimited(v: seq<Option<string>>): string {
    if v == [] then "" else "||" + Shown(v[0]) + Delimited(v[1..])
  }

  lemma {:induction false} DelimitedJoin(v: seq<Option<string>>)
    requires v != []
    ensures Delimited(v) == "||" + Join(v)
  {
    hide Shown;
    if |v| > 1 {
      DelimitedJoin(v[1..]);
      var first, rest := Shown(v[0]), Join(v[1..]);
      assert "||" + first + ("||" + rest) == "||" + (first + "||" + rest);
    } else {
      assert v[1..] == [];
      assert "||" + Shown(v[0]) + "" == "||" + Shown(v[0]);
    }
  }

  lemma {:induction false} DelimitedConcat(a: seq<Option<string>>, b: seq<Option<string>>)
    ensures Delimited(a + b) == Delimited(a) + Delimited(b)
  {
    hide Shown;
    if a == [] {
      assert a + b == b && "" + Delimited(b) == Delimited(b);
    } else {
      DelimitedConcat(a[1..], b);
      assert (a + b)[1..] == a[1..] + b;
      var first := "||" + Shown(a[0]);
      assert first + (Delimited(a[1..]) + Delimited(b)) == first + Delimited(a[1..]) + Delimited(b);
    }
  }

  lemma DelimitedOne(x: string)
    ensures Delimited([Some(x)]) == "||" + x
  {
    assert [Some(x)][1..] == [];
    assert "||" + x + "" == "||" + x;
  }

  lemma DelimitedAt(v: seq<Option<string>>, p: nat, x: string)
    requires p < |v| && v[p] == Some(x)
    ensures Delimited(v) == Delimited(v[..p]) + ("||" + x) + Delimited(v[p + 1..])
  {
    hide Delimited;
    assert v == v[..p] + [Some(x)] + v[p + 1..];
    DelimitedConcat(v[..p] + [Some(x)], v[p + 1..]);
    DelimitedConcat(v[..p], [Some(x)]);
    DelimitedOne(x);
  }

  /** The key of a tuple with its columns `p < q` in view. */
  lemma DelimitedTwo(v: seq<Option<string>>, p: nat, q: nat, x: string, y: string)
    requires p < q < |v| && v[p] == Some(x) && v[q] == Some(y)
    ensures Delimited(v) == Delimited(v[..p]) + ("||" + x) + (Delimited(v[p + 1..q]) + ("||" + y) + Delimited(v[q + 1..]))
  {
    hide Delimited;
    DelimitedAt(v, p, x);
    var w, k := v[p + 1..], q - p - 1;
    assert w[k] == v[q] && w[..k] == v[p + 1..q] && w[k + 1..] == v[q + 1..];
    DelimitedAt(w, k, y);
  }

  function SetText(e: Entry, k: nat, s: string): Entry
    requires TextColumn(k)
  {
    match k
    case 0 => e.(loginDN := s)
    case 1 => e.(clientIP := s)
    case 3 => e.(operation := s)
    case _ => e.(text := s)
  }

  lemma SetTextAt(e: Entry, c: Columns, k: nat, s: string)
    requires TextColumn(k) && Selected(c, k)
    ensures ValuesOf(SetText(e, k, s), c) == ValuesOf(e, c)[k := Some(s)]
  {
    hide Decimal;
  }

  /** What the key holds between the texts of the columns `p` and `q`. */
  function Gap(e: Entry, c: Columns, p: nat, q: nat): string
    requires p < q < 6
  {
    Delimited(ValuesOf(e, c)[p + 1..q]) + "||"
  }

  /** With two text columns selected, text that repeats what stands between them can move from
      one column to the other: whatever the rest of the entry holds, the columns differ and the
      keys agree. */
  lemma BarsCollide(e: Entry, c: Columns, p: nat, q: nat, x: string, y: string, z: string)
    requires p < q < 6 && TextColumn(p) && TextColumn(q) && Selected(c, p) && Selected(c, q)
    ensures var gap := Gap(e, c, p, q);
            var left := SetText(SetText(e, p, x + gap + y), q, z);
            var right := SetText(SetText(e, p, x), q, y + gap + z);
            ValuesOf(left, c) != ValuesOf(right, c) && Key(left, c) == Key(right, c)
  {
    var v, gap := ValuesOf(e, c), Gap(e, c, p, q);
    var xs, ys := x + gap + y, y + gap + z;
    SetTextAt(e, c, p, xs);
    SetTextAt(SetText(e, p, xs), c, q, z);
    SetTextAt(e, c, p, x);
    SetTextAt(SetText(e, p, x), c, q, ys);
    MovedText(v, p, q, x, y, z);
    hide ValuesOf, Join, SetText;
  }

  lemma MovedText(v: seq<Option<string>>, p: nat, q: nat, x: string, y: string, z: string)
    requires p < q < |v|
    ensures var gap := Delimited(v[p + 1..q]) + "||";
            var left, right := v[p := Some(x + gap + y)][q := Some(z)], v[p := Some(x)][q := Some(y + gap + z)];
            left != right && Join(left) == Join(right)
  {
    var gap := Delimited(v[p + 1..q]) + "||";
    var left, right := v[p := Some(x + gap + y)][q := Some(z)], v[p := Some(x)][q := Some(y + gap + z)];
    assert left[q] != right[q] by { assert |y + gap + z| > |z|; }
    DelimitedTwo(left, p, q, x + gap + y, z);
    DelimitedTwo(right, p, q, x, y + gap + z);
    assert left[..p] == right[..p] == v[..p] && left[q + 1..] == right[q + 1..] == v[q + 1..];
    assert left[p + 1..q] == right[p + 1..q] == v[p + 1..q];
    DelimitedJoin(left);
    DelimitedJoin(right);
    hide Delimited, Join;
    SameText4(Delimited(v[..p]), x, Delimited(v[p + 1..q]), y, z, Delimited(v[q + 1..]));
    assert ("||" + Join(left))[2..] == Join(left) && ("||" + Join(right))[2..] == Join(right);
  }

  lemma SameText4(a: string, x: string, m: string, y: string, z: string, b: string)
    ensures a + ("||" + (x + (m + "||") + y)) + (m + ("||" + z) + b)
         == a + ("||" + x) + (m + ("||" + (y + (m + "||") + z)) + b)
  {
    var all := a + "||" + x + m + "||" + y + m + "||" + z + b;
    assert a + ("||" + (x + (m + "||") + y)) + (m + ("||" + z) + b) == all;
    assert a + ("||" + x) + (m + ("||" + (y + (m + "||") + z)) + b) == all;
  }

  /** Keys separate all tuples exactly when at most one text column is selected. */
  lemma SeparatingIff(c: Columns)
    ensures Separating(c) <==> OneText(c)
  {
    hide Join, Decimal;
    if OneText(c) {
      var k: nat := if c.loginDN then 0 else if c.ip then 1 else if c.operation then 3 else 4;
      assert Selected(c, 0) == c.loginDN && Selected(c, 1) == c.ip && Selected(c, 3) == c.operation && Selected(c, 4) == c.text;
      forall d: Entry, e: Entry | Key(d, c) == Key(e, c) ensures ValuesOf(d, c) == ValuesOf(e, c) {
        OneTextSeparates(d, e, c, k);
      }
    } else {
      var p: nat, q: nat :| p < q < 6 && TextColumn(p) && TextColumn(q) && Selected(c, p) && Selected(c, q);
      BarsCollide(Entry("", "", 0, "", "", 0, 0, 0), c, p, q, "", "", "");
    }
  }

  // ---------------------------------------------------------------- what a group holds

  function CountKey(entries: seq<Entry>, c: Columns, key: string): nat {
    if entries == [] then 0
    else CountKey(entries[..|entries| - 1], c, key) + (if Key(entries[|entries| - 1], c) == key then 1 else 0)
  }

  function TimeKey(entries: seq<Entry>, c: Columns, key: string): nat {
    if entries == [] then 0
    else TimeKey(entries[..|entries| - 1], c, key) + (if Key(entries[|entries| - 1], c) == key then Elapsed(entries[|entries| - 1]) else 0)
  }

  ghost predicate HasValues(entries: seq<Entry>, c: Columns, key: string, v: Values) {
    exists i :: 0 <= i < |entries| && Key(entries[i], c) == key && v == ValuesOf(entries[i], c)
  }

  /** What the map says about one key: it has a row exactly when an entry has the key, and the
      row holds that key's count and time and the columns of an entry with that key. */
  ghost predicate GroupedAt(m: map<string, Row>, entries: seq<Entry>, c: Columns, key: string) {
    && (key in m <==> CountKey(entries, c, key) > 0)
    && (key in m ==>
          && m[key].count == CountKey(entries, c, key)
          && m[key].totalTime == TimeKey(entries, c, key) % WORD
          && HasValues(entries, c, key, m[key].values))
  }

  ghost predicate Grouped(m: map<string, Row>, entries: seq<Entry>, c: Columns) {
    forall key :: GroupedAt(m, entries, c, key)
  }

  lemma HasValuesMore(entries: seq<Entry>, e: Entry, c: Columns, key: string, v: Values)
    ensures HasValues(entries, c, key, v) ==> HasValues(entries + [e], c, key, v)
    ensures HasValues(entries + [e], c, Key(e, c), ValuesOf(e, c))
  {
    hide Key, ValuesOf;
    var more := entries + [e];
    assert more[|entries|] == e;
    if HasValues(entries, c, key, v) {
      var i :| 0 <= i < |entries| && Key(entries[i], c) == key && v == ValuesOf(entries[i], c);
      assert more[i] == entries[i];
    }
  }

  lemma KeyAppend(entries: seq<Entry>, e: Entry, c: Columns, key: string)
    ensures CountKey(entries + [e], c, key) == CountKey(entries, c, key) + (if Key(e, c) == key then 1 else 0)
    ensures TimeKey(entries + [e], c, key) == TimeKey(entries, c, key) + (if Key(e, c) == key then Elapsed(e) else 0)
  {
    hide Key, Elapsed;
    assert (entries + [e])[..|entries|] == entries;
  }

  lemma GroupStepAt(m: map<string, Row>, entries: seq<Entry>, e: Entry, c: Columns, key: string)
    requires GroupedAt(m, entries, c, key)
    ensures GroupedAt(AddEntry(m, e, c), entries + [e], c, key)
  {
    hide Key, ValuesOf, CountKey, TimeKey, HasValues, Elapsed;
    KeyAppend(entries, e, c, key);
    if key in m {
      ModSum(TimeKey(entries, c, key), Elapsed(e));
      HasValuesMore(entries, e, c, key, m[key].values);
    } else {
      NoTimeWithoutCount(entries, c, key);
      HasValuesMore(entries, e, c, key, ValuesOf(e, c));
    }
  }

  lemma GroupStep(m: map<string, Row>, entries: seq<Entry>, e: Entry, c: Columns)
    requires Grouped(m, entries, c)
    ensures Grouped(AddEntry(m, e, c), entries + [e], c)
  {
    hide GroupedAt, AddEntry;
    forall key ensures GroupedAt(AddEntry(m, e, c), entries + [e], c, key) {
      GroupStepAt(m, entries, e, c, key);
    }
  }

  lemma {:induction false} NoTimeWithoutCount(entries: seq<Entry>, c: Columns, key: string)
    requires CountKey(entries, c, key) == 0
    ensures TimeKey(entries, c, key) == 0
  {
    hide Key, Elapsed;
    if entries != [] { NoTimeWithoutCount(entries[..|entries| - 1], c, key); }
  }

  /** One round of the loop: a known key adds to its row, a new key gets a row. */
  function AddEntry(m: map<string, Row>, e: Entry, c: Columns): map<string, Row> {
    var key := Key(e, c);
    if key in m then m[key := m[key].(count := m[key].count + 1, totalTime := (m[key].totalTime + Elapsed(e)) % WORD)]
    else m[key := Row(ValuesOf(e, c), Elapsed(e), 1)]
  }

  /** _populateHashMapWithSuperlogEntries. */
  method Populate(entries: seq<Entry>, c: Columns) returns (m: map<string, Row>)
    ensures Grouped(m, entries, c)
  {
    m := map[];
    assert Grouped(m, [], c);
    hide Grouped, AddEntry;
    for i := 0 to |entries|
      invariant Grouped(m, entries[..i], c)
    {
      assert entries[..i + 1] == entries[..i] + [entries[i]];
      GroupStep(m, entries[..i], entries[i], c);
      m := AddEntry(m, entries[i], c);
    }
    assert entries[..|entries|] == entries;
  }

  // ---------------------------------------------------------------- the table

  function Counts(rows: seq<TableRow>): nat {
    if rows == [] then 0 else rows[0].row.count + Counts(rows[1..])
  }

  function Times(rows: seq<TableRow>): nat {
    if rows == [] then 0 else rows[0].row.totalTime + Times(rows[1..])
  }

  lemma {:induction false} CountsSplit(a: seq<TableRow>, b: seq<TableRow>)
    ensures Counts(a + b) == Counts(a) + Counts(b) && Times(a + b) == Times(a) + Times(b)
  {
    if a == [] {
      assert a + b == b;
    } else {
      assert (a + b)[1..] == a[1..] + b;
      CountsSplit(a[1..], b);
    }
  }

  /** Entries whose key is among `keys`, and their time. */
  function Covered(entries: seq<Entry>, c: Columns, keys: set<string>): nat {
    if entries == [] then 0
    else Covered(entries[..|entries| - 1], c, keys) + (if Key(entries[|entries| - 1], c) in keys then 1 else 0)
  }

  function CoveredTime(entries: seq<Entry>, c: Columns, keys: set<string>): nat {
    if entries == [] then 0
    else CoveredTime(entries[..|entries| - 1], c, keys)
         + (if Key(entries[|entries| - 1], c) in keys then Elapsed(entries[|entries| - 1]) else 0)
  }

  function TotalTime(entries: seq<Entry>): nat {
    if entries == [] then 0 else TotalTime(entries[..|entries| - 1]) + Elapsed(entries[|entries| - 1])
  }

  function StartSum(entries: seq<Entry>): nat {
    if entries == [] then 0 else StartSum(entries[..|entries| - 1]) + entries[|entries| - 1].start
  }

  function EndSum(entries: seq<Entry>): nat {
    if entries == [] then 0 else EndSum(entries[..|entries| - 1]) + entries[|entries| - 1].end
  }

  /** The entries with this key, in order. */
  function Of(entries: seq<Entry>, c: Columns, key: string): seq<Entry> {
    if entries == [] then []
    else Of(entries[..|entries| - 1], c, key) + if Key(entries[|entries| - 1], c) == key then [entries[|entries| - 1]] else []
  }

  lemma {:induction false} OfKey(entries: seq<Entry>, c: Columns, key: string)
    ensures |Of(entries, c, key)| == CountKey(entries, c, key)
    ensures TotalTime(Of(entries, c, key)) == TimeKey(entries, c, key)
  {
    hide Key, Elapsed;
    if entries != [] {
      var k := |entries| - 1;
      OfKey(entries[..k], c, key);
      var own := Of(entries[..k], c, key);
      assert (own + [entries[k]])[..|own|] == own && own + [] == own;
    }
  }

  /** Adding what lies between start and end to the start gives the end, in 64 bits. */
  lemma {:induction false} TimesAddUp(entries: seq<Entry>)
    ensures (TotalTime(entries) + StartSum(entries)) % WORD == EndSum(entries) % WORD
    ensures (forall i :: 0 <= i < |entries| ==> entries[i].start <= entries[i].end) ==>
              TotalTime(entries) + StartSum(entries) == EndSum(entries)
  {
    if entries != [] {
      var front, e := entries[..|entries| - 1], entries[|entries| - 1];
      TimesAddUp(front);
      assert forall i :: 0 <= i < |front| ==> front[i] == entries[i];
      ElapsedAddsUp(e);
      var a, b := TotalTime(front) + StartSum(front), Elapsed(e) + e.start;
      hide Elapsed;
      AddMod(a, b, EndSum(front), e.end);
    }
  }

  lemma ElapsedAddsUp(e: Entry)
    ensures (Elapsed(e) + e.start) % WORD == e.end % WORD
    ensures e.start <= e.end ==> Elapsed(e) + e.start == e.end
  {
  }

  lemma AddMod(a: nat, b: nat, x: nat, y: nat)
    requires a % WORD == x % WORD && b % WORD == y % WORD
    ensures (a + b) % WORD == (x + y) % WORD
  {
    ModSum(a, b);
    ModSum(x, b);
    ModSum(b, x);
    ModSum(y, x);
  }

  /** A row's time is what lies between the starts and the ends of its own entries. */
  predicate TimesOwn(r: Row, own: seq<Entry>) {
    r.count == |own| && (r.totalTime + StartSum(own)) % WORD == EndSum(own) % WORD
  }

  lemma GroupTimesOwn(r: Row, entries: seq<Entry>, c: Columns, key: string)
    requires r.count == CountKey(entries, c, key) && r.totalTime == TimeKey(entries, c, key) % WORD
    ensures TimesOwn(r, Of(entries, c, key))
  {
    OfKey(entries, c, key);
    TimesAddUp(Of(entries, c, key));
    ModSum(TimeKey(entries, c, key), StartSum(Of(entries, c, key)));
    hide Of, StartSum, EndSum, TotalTime, CountKey, TimeKey;
  }

  lemma {:induction false} CoverOneMore(entries: seq<Entry>, c: Columns, keys: set<string>, key: string)
    requires key !in keys
    ensures Covered(entries, c, keys + {key}) == Covered(entries, c, keys) + CountKey(entries, c, key)
    ensures CoveredTime(entries, c, keys + {key}) == CoveredTime(entries, c, keys) + TimeKey(entries, c, key)
  {
    hide Key, Elapsed;
    if entries != [] { CoverOneMore(entries[..|entries| - 1], c, keys, key); }
  }

  lemma {:induction false} CoverNone(entries: seq<Entry>, c: Columns)
    ensures Covered(entries, c, {}) == 0 && CoveredTime(entries, c, {}) == 0
  {
    hide Key, Elapsed;
    if entries != [] { CoverNone(entries[..|entries| - 1], c); }
  }

  lemma {:induction false} CoverAll(entries: seq<Entry>, c: Columns, keys: set<string>)
    requires forall i :: 0 <= i < |entries| ==> Key(entries[i], c) in keys
    ensures Covered(entries, c, keys) == |entries| && CoveredTime(entries, c, keys) == TotalTime(entries)
  {
    hide Key, Elapsed;
    if entries != [] { CoverAll(entries[..|entries| - 1], c, keys); }
  }

  lemma {:induction false} KeyIsCounted(entries: seq<Entry>, c: Columns, i: nat)
    requires i < |entries|
    ensures CountKey(entries, c, Key(entries[i], c)) > 0
  {
    hide Key;
    if i < |entries| - 1 { KeyIsCounted(entries[..|entries| - 1], c, i); }
  }

  function Finish(r: Row): TableRow
    requires r.count > 0
  {
    TableRow(r, Decimal(r.totalTime / r.count))
  }

  /** `rows` lists the rows of the given keys, each once, with their averages. */
  ghost predicate Lists(rows: seq<TableRow>, keys: seq<string>, m: map<string, Row>) {
    && |rows| == |keys|
    && (forall i :: 0 <= i < |keys| ==> keys[i] in m && m[keys[i]].count > 0 && rows[i] == Finish(m[keys[i]]))
    && Distinct(keys)
  }

  ghost predicate Distinct(keys: seq<string>) {
    forall i, j :: 0 <= i < j < |keys| ==> keys[i] != keys[j]
  }

  /** _convertHashMapToSuperlogTable, with the map visited in any order. */
  method Convert(m: map<string, Row>, ghost entries: seq<Entry>, ghost c: Columns)
    returns (rows: seq<TableRow>, ghost keys: seq<string>)
    requires Grouped(m, entries, c)
    ensures Lists(rows, keys, m) && (forall key :: key in m ==> key in keys)
    ensures Counts(rows) == |entries|
    ensures Times(rows) % WORD == TotalTime(entries) % WORD && Times(rows) <= TotalTime(entries)
  {
    rows, keys := [], [];
    var left := m.Keys;
    ghost var done: set<string> := {};
    CoverNone(entries, c);
    hide Grouped, Counts, Times, Covered, CoveredTime, Lists;
    ListsNothing(m);
    while left != {}
      invariant left <= m.Keys && done == m.Keys - left
      invariant Lists(rows, keys, m) && (forall key :: key in done <==> key in keys)
      invariant Counts(rows) == Covered(entries, c, done)
      invariant Times(rows) % WORD == CoveredTime(entries, c, done) % WORD && Times(rows) <= CoveredTime(entries, c, done)
      decreases left
    {
      var key :| key in left;
      CoverKey(m, entries, c, done, key);
      rows, keys := ListOne(rows, keys, m, key, CoveredTime(entries, c, done));
      done, left := done + {key}, left - {key};
    }
    assert done == m.Keys;
    CoverEverything(m, entries, c);
  }

  lemma ListsNothing(m: map<string, Row>)
    ensures Lists([], [], m) && Counts([]) == 0 && Times([]) == 0
  {
  }

  /** Visiting one more key covers its entries. */
  lemma CoverKey(m: map<string, Row>, entries: seq<Entry>, c: Columns, done: set<string>, key: string)
    requires Grouped(m, entries, c) && key in m && key !in done
    ensures m[key].count > 0
    ensures Covered(entries, c, done + {key}) == Covered(entries, c, done) + m[key].count
    ensures CoveredTime(entries, c, done + {key}) % WORD == (CoveredTime(entries, c, done) + m[key].totalTime) % WORD
    ensures CoveredTime(entries, c, done + {key}) >= CoveredTime(entries, c, done) + m[key].totalTime
  {
    assert GroupedAt(m, entries, c, key);
    CoverOneMore(entries, c, done, key);
    ModSum(TimeKey(entries, c, key), CoveredTime(entries, c, done));
  }

  lemma CoverEverything(m: map<string, Row>, entries: seq<Entry>, c: Columns)
    requires Grouped(m, entries, c)
    ensures Covered(entries, c, m.Keys) == |entries| && CoveredTime(entries, c, m.Keys) == TotalTime(entries)
  {
    forall i | 0 <= i < |entries|
      ensures Key(entries[i], c) in m.Keys
    {
      KeyIsCounted(entries, c, i);
      assert GroupedAt(m, entries, c, Key(entries[i], c));
    }
    CoverAll(entries, c, m.Keys);
  }

  method ListOne(rows: seq<TableRow>, ghost keys: seq<string>, m: map<string, Row>, key: string, ghost sum: nat)
    returns (rows': seq<TableRow>, ghost keys': seq<string>)
    requires Lists(rows, keys, m) && key in m && key !in keys && m[key].count > 0
    requires Times(rows) % WORD == sum % WORD
    ensures keys' == keys + [key] && Lists(rows', keys', m)
    ensures Counts(rows') == Counts(rows) + m[key].count
    ensures Times(rows') % WORD == (sum + m[key].totalTime) % WORD && Times(rows') == Times(rows) + m[key].totalTime
  {
    var row := Finish(m[key]);
    rows', keys' := rows + [row], keys + [key];
    CountsSplit(rows, [row]);
    CountsOne(row);
    ModSum(Times(rows), row.row.totalTime);
    ModSum(sum, row.row.totalTime);
    hide Counts, Times, Decimal;
  }

  lemma CountsOne(row: TableRow)
    ensures Counts([row]) == row.row.count && Times([row]) == row.row.totalTime
  {
  }

  predicate Ordered(rows: seq<TableRow>) {
    forall i, j :: 0 <= i < j < |rows| ==> rows[i].row.count >= rows[j].row.count
  }

  lemma {:induction false} BusiestRow(rows: seq<TableRow>) returns (k: nat)
    requires rows != []
    ensures k < |rows| && Busiest(rows, k)
  {
    if |rows| == 1 {
      k := 0;
    } else {
      var r := BusiestRow(rows[1..]);
      k := if rows[0].row.count >= rows[1..][r].row.count then 0 else r + 1;
      assert forall j :: 1 <= j < |rows| ==> rows[j] == rows[1..][j - 1];
    }
  }

  predicate Busiest(rows: seq<TableRow>, k: nat)
    requires k < |rows|
  {
    forall j :: 0 <= j < |rows| ==> rows[k].row.count >= rows[j].row.count
  }

  predicate Above(a: seq<TableRow>, b: seq<TableRow>) {
    forall i, j :: 0 <= i < |a| && 0 <= j < |b| ==> a[i].row.count >= b[j].row.count
  }

  /** qsort with _compareSuperlogTableRows; any order among rows of equal count. */
  method Sort(rows: seq<TableRow>, ghost keys: seq<string>, ghost m: map<string, Row>)
    returns (sorted: seq<TableRow>, ghost keys': seq<string>)
    requires Lists(rows, keys, m)
    ensures Ordered(sorted) && Lists(sorted, keys', m) && multiset(keys') == multiset(keys)
    ensures Counts(sorted) == Counts(rows) && Times(sorted) == Times(rows)
  {
    var rest := rows;
    ghost var restKeys := keys;
    sorted, keys' := [], [];
    assert [] + rows == rows && [] + keys == keys;
    hide Counts, Times, Lists, Above, Ordered, Busiest;
    SortStart(rows);
    while rest != []
      invariant Ordered(sorted) && Above(sorted, rest) && |sorted| == |keys'| && |rest| == |restKeys|
      invariant Lists(sorted + rest, keys' + restKeys, m) && multiset(keys' + restKeys) == multiset(keys)
      invariant Counts(sorted + rest) == Counts(rows) && Times(sorted + rest) == Times(rows)
      decreases |rest|
    {
      ghost var busiest := BusiestRow(rest);
      var k: nat :| k < |rest| && Busiest(rest, k);
      MoveOrdered(sorted, rest, k);
      MoveLists(sorted, rest, keys', restKeys, m, k);
      MoveCounts(sorted, rest, k);
      MoveKeys(keys', restKeys, k);
      sorted, rest := sorted + [rest[k]], rest[..k] + rest[k + 1..];
      keys', restKeys := keys' + [restKeys[k]], restKeys[..k] + restKeys[k + 1..];
    }
    assert sorted + [] == sorted && keys' + [] == keys';
  }

  lemma SortStart(rows: seq<TableRow>)
    ensures Ordered([]) && Above([], rows)
  {
  }

  lemma MoveOrdered(sorted: seq<TableRow>, rest: seq<TableRow>, k: nat)
    requires Ordered(sorted) && Above(sorted, rest) && k < |rest| && Busiest(rest, k)
    ensures Ordered(sorted + [rest[k]]) && Above(sorted + [rest[k]], rest[..k] + rest[k + 1..])
  {
    var left := rest[..k] + rest[k + 1..];
    assert forall j :: 0 <= j < |left| ==> left[j] == rest[if j < k then j else j + 1];
  }

  /** Moving position `k` of the second part to the end of the first. */
  function Moved(n: nat, k: nat, i: nat): nat {
    if i < n then i else if i == n then n + k else if i <= n + k then i - 1 else i
  }

  lemma MoveAt<T>(a: seq<T>, b: seq<T>, k: nat)
    requires k < |b|
    ensures var c := a + [b[k]] + (b[..k] + b[k + 1..]);
            |c| == |a + b| && forall i :: 0 <= i < |c| ==> c[i] == (a + b)[Moved(|a|, k, i)]
  {
  }

  lemma MoveLists(sorted: seq<TableRow>, rest: seq<TableRow>, keys: seq<string>, restKeys: seq<string>,
                  m: map<string, Row>, k: nat)
    requires |sorted| == |keys| && |rest| == |restKeys| && k < |rest|
    requires Lists(sorted + rest, keys + restKeys, m)
    ensures Lists(sorted + [rest[k]] + (rest[..k] + rest[k + 1..]),
                  keys + [restKeys[k]] + (restKeys[..k] + restKeys[k + 1..]), m)
  {
    MoveAt(sorted, rest, k);
    MoveAt(keys, restKeys, k);
    hide Finish;
    var rows', keys' := sorted + [rest[k]] + (rest[..k] + rest[k + 1..]), keys + [restKeys[k]] + (restKeys[..k] + restKeys[k + 1..]);
    forall i | 0 <= i < |keys'|
      ensures keys'[i] in m && m[keys'[i]].count > 0 && rows'[i] == Finish(m[keys'[i]])
    {
      var j := Moved(|keys|, k, i);
      assert keys'[i] == (keys + restKeys)[j] && rows'[i] == (sorted + rest)[j];
    }
    forall i, j | 0 <= i < j < |keys'|
      ensures keys'[i] != keys'[j]
    {
      var i', j' := Moved(|keys|, k, i), Moved(|keys|, k, j);
      assert i' != j' && keys'[i] == (keys + restKeys)[i'] && keys'[j] == (keys + restKeys)[j'];
    }
  }

  lemma MoveCounts(sorted: seq<TableRow>, rest: seq<TableRow>, k: nat)
    requires k < |rest|
    ensures Counts(sorted + [rest[k]] + (rest[..k] + rest[k + 1..])) == Counts(sorted + rest)
    ensures Times(sorted + [rest[k]] + (rest[..k] + rest[k + 1..])) == Times(sorted + rest)
  {
    hide Counts, Times;
    var a, x, b := rest[..k], [rest[k]], rest[k + 1..];
    assert rest == a + (x + b);
    CountsSplit(sorted, rest);
    CountsSplit(a, x + b);
    CountsSplit(x, b);
    CountsSplit(sorted + x, a + b);
    CountsSplit(sorted, x);
    CountsSplit(a, b);
  }

  lemma MoveKeys(keys: seq<string>, restKeys: seq<string>, k: nat)
    requires k < |restKeys|
    ensures multiset(keys + [restKeys[k]] + (restKeys[..k] + restKeys[k + 1..])) == multiset(keys + restKeys)
  {
    assert restKeys == restKeys[..k] + [restKeys[k]] + restKeys[k + 1..];
    assert multiset(restKeys) == multiset(restKeys[..k]) + multiset([restKeys[k]]) + multiset(restKeys[k + 1..]);
  }

  /** VmDirSuperLogGetTable: a conserving group-by in order of falling counts. Row `i` belongs to
      key `keys[i]`; there is one row for each key of the entries, and when no text contains a
      '|' one row for each combination of the selected columns. */
  method GetTable(entries: seq<Entry>, c: Columns) returns (table: seq<TableRow>, ghost keys: seq<string>)
    ensures Ordered(table)
    ensures Counts(table) == |entries|
    ensures (Times(table) + StartSum(entries)) % WORD == EndSum(entries) % WORD
    ensures (forall e :: e in entries ==> e.start <= e.end) && EndSum(entries) < StartSum(entries) + WORD ==>
              Times(table) + StartSum(entries) == EndSum(entries)
    ensures forall i :: 0 <= i < |table| && i < |keys| ==> TimesOwn(table[i].row, Of(entries, c, keys[i]))
    ensures |keys| == |table| && Distinct(keys)
    ensures forall i :: 0 <= i < |table| ==> GroupRow(table[i], entries, c, keys[i])
    ensures forall e :: e in entries ==> Key(e, c) in keys
    ensures forall i, j :: 0 <= i < j < |table| ==> table[i].row.values != table[j].row.values
    ensures OneText(c) || (forall e :: e in entries ==> Plain(e)) ==>
              forall i :: 0 <= i < |table| ==> TupleRow(table[i], entries, c)
    ensures OneText(c) || (forall e :: e in entries ==> Plain(e)) ==>
              forall e :: e in entries ==> exists i :: 0 <= i < |table| && table[i].row.values == ValuesOf(e, c)
  {
    var m := Populate(entries, c);
    ghost var mapKeys;
    var rows;
    rows, mapKeys := Convert(m, entries, c);
    table, keys := Sort(rows, mapKeys, m);
    hide Counts, Times, Ordered, Grouped, Lists, GroupRow, Key, Plain, OneText, TupleRow, ValuesOf, TimesOwn, StartSum, EndSum;
    assert forall key :: key in m ==> key in multiset(mapKeys);
    assert forall key :: key in multiset(keys) ==> key in keys;
    TableFacts(table, keys, m, entries, c);
    TableTimes(table, entries);
    RowTimes(table, keys, entries, c);
  }

  lemma TableTimes(table: seq<TableRow>, entries: seq<Entry>)
    requires Times(table) % WORD == TotalTime(entries) % WORD && Times(table) <= TotalTime(entries)
    ensures (Times(table) + StartSum(entries)) % WORD == EndSum(entries) % WORD
    ensures (forall e :: e in entries ==> e.start <= e.end) && EndSum(entries) < StartSum(entries) + WORD ==>
              Times(table) + StartSum(entries) == EndSum(entries)
  {
    TimesAddUp(entries);
    hide Times, TotalTime, StartSum, EndSum;
    AddMod(Times(table), StartSum(entries), TotalTime(entries), StartSum(entries));
    if (forall e :: e in entries ==> e.start <= e.end) && EndSum(entries) < StartSum(entries) + WORD {
      assert forall i :: 0 <= i < |entries| ==> entries[i] in entries;
      SmallSame(Times(table), TotalTime(entries));
    }
  }

  lemma SmallSame(a: nat, b: nat)
    requires a % WORD == b % WORD && a <= b < WORD
    ensures a == b
  {
  }

  lemma RowTimes(table: seq<TableRow>, keys: seq<string>, entries: seq<Entry>, c: Columns)
    requires |keys| == |table| && (forall i :: 0 <= i < |table| ==> GroupRow(table[i], entries, c, keys[i]))
    ensures forall i :: 0 <= i < |table| ==> TimesOwn(table[i].row, Of(entries, c, keys[i]))
  {
    hide CountKey, TimeKey, TimesOwn, HasValues, Decimal, Of;
    forall i | 0 <= i < |table| ensures TimesOwn(table[i].row, Of(entries, c, keys[i])) {
      assert GroupRow(table[i], entries, c, keys[i]);
      GroupTimesOwn(table[i].row, entries, c, keys[i]);
    }
  }

  /** The row of one key: its count, time, average and columns. */
  ghost predicate GroupRow(t: TableRow, entries: seq<Entry>, c: Columns, key: string) {
    && t.row.count == CountKey(entries, c, key) > 0
    && t.row.totalTime == TimeKey(entries, c, key) % WORD
    && t.average == Decimal(t.row.totalTime / t.row.count)
    && HasValues(entries, c, key, t.row.values)
  }

  lemma TableFacts(table: seq<TableRow>, keys: seq<string>, m: map<string, Row>, entries: seq<Entry>, c: Columns)
    requires Grouped(m, entries, c) && Lists(table, keys, m) && (forall key :: key in m ==> key in keys)
    ensures |keys| == |table| && Distinct(keys)
    ensures forall i :: 0 <= i < |table| ==> GroupRow(table[i], entries, c, keys[i])
    ensures forall e :: e in entries ==> Key(e, c) in keys
    ensures forall i, j :: 0 <= i < j < |table| ==> table[i].row.values != table[j].row.values
    ensures OneText(c) || (forall e :: e in entries ==> Plain(e)) ==>
              forall i :: 0 <= i < |table| ==> TupleRow(table[i], entries, c)
    ensures OneText(c) || (forall e :: e in entries ==> Plain(e)) ==>
              forall e :: e in entries ==> exists i :: 0 <= i < |table| && table[i].row.values == ValuesOf(e, c)
  {
    forall i | 0 <= i < |table|
      ensures GroupRow(table[i], entries, c, keys[i])
    {
      assert GroupedAt(m, entries, c, keys[i]);
    }
    forall e | e in entries
      ensures Key(e, c) in keys
    {
      var i :| 0 <= i < |entries| && entries[i] == e;
      KeyIsCounted(entries, c, i);
      assert GroupedAt(m, entries, c, Key(e, c));
    }
    forall i, j | 0 <= i < j < |table|
      ensures table[i].row.values != table[j].row.values
    {
      assert GroupRow(table[i], entries, c, keys[i]) && GroupRow(table[j], entries, c, keys[j]);
      OneRowPerTuple(entries, c, keys[i], keys[j], table[i].row.values, table[j].row.values);
    }
    if OneText(c) || (forall e :: e in entries ==> Plain(e)) {
      SeparatedTable(table, keys, entries, c);
    }
  }

  /** Different keys come from different tuples, whatever the fields hold. */
  lemma OneRowPerTuple(entries: seq<Entry>, c: Columns, k: string, l: string, v: Values, w: Values)
    requires k != l && HasValues(entries, c, k, v) && HasValues(entries, c, l, w)
    ensures v != w
  {
    hide ValuesOf, Join;
    var i :| 0 <= i < |entries| && Key(entries[i], c) == k && v == ValuesOf(entries[i], c);
    var j :| 0 <= j < |entries| && Key(entries[j], c) == l && w == ValuesOf(entries[j], c);
  }

  // ---------------------------------------------------------------- tables of tuples

  function CountTuple(entries: seq<Entry>, c: Columns, v: Values): nat {
    if entries == [] then 0
    else CountTuple(entries[..|entries| - 1], c, v) + (if ValuesOf(entries[|entries| - 1], c) == v then 1 else 0)
  }

  function TimeTuple(entries: seq<Entry>, c: Columns, v: Values): nat {
    if entries == [] then 0
    else TimeTuple(entries[..|entries| - 1], c, v)
         + (if ValuesOf(entries[|entries| - 1], c) == v then Elapsed(entries[|entries| - 1]) else 0)
  }

  /** The row holds all the entries of its tuple and no others. */
  ghost predicate TupleRow(t: TableRow, entries: seq<Entry>, c: Columns) {
    t.row.count == CountTuple(entries, c, t.row.values) && t.row.totalTime == TimeTuple(entries, c, t.row.values) % WORD
  }

  /** Among these entries the key stands for the tuple. */
  ghost predicate StandsFor(entries: seq<Entry>, c: Columns, key: string, v: Values) {
    forall i :: 0 <= i < |entries| ==> (Key(entries[i], c) == key <==> ValuesOf(entries[i], c) == v)
  }

  lemma {:induction false} CountsAgree(entries: seq<Entry>, c: Columns, key: string, v: Values)
    requires StandsFor(entries, c, key, v)
    ensures CountKey(entries, c, key) == CountTuple(entries, c, v) && TimeKey(entries, c, key) == TimeTuple(entries, c, v)
  {
    hide Key, ValuesOf, Elapsed;
    if entries != [] { CountsAgree(entries[..|entries| - 1], c, key, v); }
  }

  lemma KeyStandsFor(entries: seq<Entry>, c: Columns, key: string, v: Values)
    requires OneText(c) || (forall e :: e in entries ==> Plain(e))
    requires HasValues(entries, c, key, v)
    ensures StandsFor(entries, c, key, v)
  {
    SeparatingIff(c);
    hide Join, ValuesOf, Plain, OneText;
    var i :| 0 <= i < |entries| && Key(entries[i], c) == key && v == ValuesOf(entries[i], c);
    forall j | 0 <= j < |entries|
      ensures Key(entries[j], c) == key <==> ValuesOf(entries[j], c) == v
    {
      if !OneText(c) { KeySeparates(entries[i], entries[j], c); }
    }
  }

  lemma SeparatedTable(table: seq<TableRow>, keys: seq<string>, entries: seq<Entry>, c: Columns)
    requires OneText(c) || (forall e :: e in entries ==> Plain(e))
    requires |keys| == |table| && (forall i :: 0 <= i < |table| ==> GroupRow(table[i], entries, c, keys[i]))
    requires forall e :: e in entries ==> Key(e, c) in keys
    ensures forall i :: 0 <= i < |table| ==> TupleRow(table[i], entries, c)
    ensures forall e :: e in entries ==> exists i :: 0 <= i < |table| && table[i].row.values == ValuesOf(e, c)
  {
    hide Key, ValuesOf, Plain, OneText, CountKey, TimeKey, CountTuple, TimeTuple, HasValues;
    forall i | 0 <= i < |table|
      ensures TupleRow(table[i], entries, c) && StandsFor(entries, c, keys[i], table[i].row.values)
    {
      assert GroupRow(table[i], entries, c, keys[i]);
      KeyStandsFor(entries, c, keys[i], table[i].row.values);
      CountsAgree(entries, c, keys[i], table[i].row.values);
    }
    forall e | e in entries
      ensures exists i :: 0 <= i < |table| && table[i].row.values == ValuesOf(e, c)
    {
      var j :| 0 <= j < |entries| && entries[j] == e;
      var i :| 0 <= i < |keys| && keys[i] == Key(e, c);
      assert StandsFor(entries, c, keys[i], table[i].row.values);
      assert Key(entries[j], c) == keys[i];
    }
  }
}
