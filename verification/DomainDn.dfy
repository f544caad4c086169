/** VmwDeployGetDomainDN of config/cfgutils/certificate.c: a domain name becomes a DN of domain
    components (section 3 of RFC 2247), measured in a first pass and written in a second. */
module DomainDn {
  import opened Bytes

  const PREFIX: string := "DC="

  /** strcspn(s, "."). */
  function NameLength(s: string): (n: nat)
    ensures n <= |s| && '.' !in s[..n] && (n < |s| ==> s[n] == '.')
  {
    if s == "" || s[0] == '.' then 0 else
      assert s[..1 + NameLength(s[1..])] == [s[0]] + s[1..][..NameLength(s[1..])];
      1 + NameLength(s[1..])
  }

  /** strspn(s, "."). */
  function DotsLength(s: string): (n: nat)
    ensures n <= |s| && (s != "" && s[0] == '.' ==> n > 0)
  {
    if s == "" || s[0] != '.' then 0 else 1 + DotsLength(s[1..])
  }

  /** The nonempty dot-separated labels. */
  function Labels(s: string): seq<string>
    decreases |s|
  {
    if s == "" then [] else
      var n := NameLength(s);
      if n == 0 then Labels(s[1..]) else [s[..n]] + Labels(s[n..])
  }

  lemma {:induction false} LabelsSkipDots(s: string)
    ensures Labels(s[DotsLength(s)..]) == Labels(s)
  {
    if s != "" && s[0] == '.' {
      LabelsSkipDots(s[1..]);
      assert s[1..][DotsLength(s[1..])..] == s[DotsLength(s)..];
    } else {
      assert s[0..] == s;
    }
  }

  /** "DC=" plus each label, joined by commas. */
  function Joined(labels: seq<string>): string {
    if labels == [] then ""
    else if |labels| == 1 then PREFIX + labels[0]
    else Joined(labels[..|labels| - 1]) + "," + (PREFIX + labels[|labels| - 1])
  }

  lemma JoinedMore(labels: seq<string>, name: string)
    ensures Joined(labels + [name]) == (if labels == [] then "" else Joined(labels) + ",") + (PREFIX + name)
    ensures labels != [] ==> |Joined(labels)| >= 3
  {
    assert (labels + [name])[..|labels|] == labels;
    if labels == [] { assert "" + (PREFIX + name) == PREFIX + name; }
  }

  /** Where the cursor stands after one round: behind a label and the dots that follow it. */
  function Skip(rest: string): (next: string)
    ensures rest != "" ==> |next| < |rest|
  {
    var n := NameLength(rest);
    rest[n..][DotsLength(rest[n..])..]
  }

  /** The labels passed in one round: one or none. */
  function Front(rest: string): seq<string> {
    var n := NameLength(rest);
    if n > 0 then [rest[..n]] else []
  }

  lemma LabelsUnfold(rest: string)
    ensures Labels(rest) == Front(rest) + Labels(rest[NameLength(rest)..])
  {
    hide DotsLength;
    if NameLength(rest) == 0 { assert rest[0..] == rest && [] + Labels(rest) == Labels(rest); }
  }

  /** One round of either loop. */
  lemma Round(rest: string)
    ensures Labels(rest) == Front(rest) + Labels(Skip(rest))
  {
    LabelsUnfold(rest);
    LabelsSkipDots(rest[NameLength(rest)..]);
    hide DotsLength, NameLength, Labels, Front;
  }

  lemma RoundKeeps(rest: string, done: seq<string>, all: seq<string>)
    requires done + Labels(rest) == all
    ensures done + Front(rest) + Labels(Skip(rest)) == all
  {
    Round(rest);
    hide Labels, Front, Skip;
    assert done + (Front(rest) + Labels(Skip(rest))) == done + Front(rest) + Labels(Skip(rest));
  }

  /** The measuring loop. */
  method Measure(domain: string) returns (len: nat)
    ensures len == |Joined(Labels(domain))|
  {
    var rest := domain;
    ghost var done: seq<string> := [];
    len := 0;
    assert [] + Labels(domain) == Labels(domain);
    hide Labels, Joined, NameLength, DotsLength, Skip;
    JoinedNone();
    while rest != ""
      invariant done + Labels(rest) == Labels(domain)
      invariant len == |Joined(done)| && (done != [] <==> len > 0)
      decreases |rest|
    {
      var n := NameLength(rest);
      RoundKeeps(rest, done, Labels(domain));
      if n > 0 {
        JoinedMore(done, rest[..n]);
        if len > 0 { len := len + 1; }
        len := len + |PREFIX| + n;
      } else {
        assert done + [] == done;
      }
      done := done + Front(rest);
      rest := Skip(rest);
    }
    NoLabels(rest);
    assert done + [] == done;
  }

  lemma JoinedNone()
    ensures Joined([]) == ""
  {
  }

  lemma NoLabels(s: string)
    requires s == ""
    ensures Labels(s) == []
  {
  }

  /** memcpy at the write cursor. */
  method Write(buf: array<char>, cursor: nat, s: string) returns (cursor': nat)
    requires cursor + |s| <= buf.Length
    modifies buf
    ensures cursor' == cursor + |s| && buf[..cursor'] == old(buf[..cursor]) + s
  {
    forall i | 0 <= i < |s| { buf[cursor + i] := s[i]; }
    cursor' := cursor + |s|;
    assert buf[..cursor] == old(buf[..cursor]);
  }

  /** The text written so far is the DN of the labels passed. */
  ghost predicate Written(buf: array<char>, cursor: nat, done: seq<string>)
    reads buf
  {
    cursor == |Joined(done)| && cursor <= buf.Length && buf[..cursor] == Joined(done) && (done != [] <==> cursor > 0)
  }

  /** The writing loop fills exactly the measured room. */
  method WriteAll(domain: string, buf: array<char>)
    requires buf.Length == |Joined(Labels(domain))| + 1
    modifies buf
    ensures buf[..buf.Length - 1] == Joined(Labels(domain))
  {
    var rest, cursor: nat := domain, 0;
    ghost var done: seq<string> := [];
    assert [] + Labels(domain) == Labels(domain);
    JoinedNone();
    assert Written(buf, 0, []);
    hide Labels, Joined, NameLength, DotsLength, Written, Skip;
    while rest != ""
      invariant done + Labels(rest) == Labels(domain)
      invariant Written(buf, cursor, done)
      decreases |rest|
    {
      var n := NameLength(rest);
      RoundKeeps(rest, done, Labels(domain));
      if n > 0 {
        cursor := WriteNext(buf, cursor, rest[..n], done, Labels(Skip(rest)));
      } else {
        assert done + [] == done;
      }
      done := done + Front(rest);
      rest := Skip(rest);
    }
    NoLabels(rest);
    assert done + [] == done;
    WrittenAll(buf, cursor, done);
  }

  lemma WrittenAll(buf: array<char>, cursor: nat, done: seq<string>)
    requires Written(buf, cursor, done)
    ensures cursor == |Joined(done)| <= buf.Length && buf[..cursor] == Joined(done)
  {
  }

  /** One more label fits, whatever labels are still to come. */
  method WriteNext(buf: array<char>, cursor: nat, name: string, ghost done: seq<string>, ghost rest: seq<string>)
    returns (cursor': nat)
    requires Written(buf, cursor, done) && |Joined(done + [name] + rest)| < buf.Length
    modifies buf
    ensures Written(buf, cursor', done + [name])
  {
    JoinedMore(done, name);
    JoinedPrefix(done + [name], rest);
    hide Joined;
    cursor' := WriteLabel(buf, cursor, name);
  }

  /** A comma unless this is the first label, the prefix, the label. */
  method WriteLabel(buf: array<char>, cursor: nat, name: string) returns (cursor': nat)
    requires cursor + (if cursor > 0 then 1 else 0) + 3 + |name| <= buf.Length
    modifies buf
    ensures cursor' == cursor + (if cursor > 0 then 1 else 0) + 3 + |name|
    ensures buf[..cursor'] == (if cursor > 0 then old(buf[..cursor]) + "," else "") + (PREFIX + name)
  {
    ghost var before := buf[..cursor];
    cursor' := cursor;
    if cursor > 0 { cursor' := Write(buf, cursor', ","); }
    ghost var head := if cursor > 0 then before + "," else "";
    assert buf[..cursor'] == head;
    cursor' := Write(buf, cursor', PREFIX);
    cursor' := Write(buf, cursor', name);
    assert head + (PREFIX + name) == head + PREFIX + name;
  }

  lemma {:induction false} JoinedPrefix(a: seq<string>, b: seq<string>)
    ensures |Joined(a)| <= |Joined(a + b)|
    decreases |b|
  {
    if b == [] {
      assert a + b == a;
    } else {
      var k := |b| - 1;
      JoinedPrefix(a, b[..k]);
      assert a + b == a + b[..k] + [b[k]];
      JoinedMore(a + b[..k], b[k]);
    }
  }

  /** VmwDeployGetDomainDN; None is ERROR_INVALID_DOMAINNAME. */
  method GetDomainDn(domain: string) returns (dn: Option<string>)
    ensures dn == if Labels(domain) == [] then None else Some(Joined(Labels(domain)))
  {
    var len := Measure(domain);
    JoinedEmptyIff(Labels(domain));
    if len == 0 { return None; }
    hide Labels, Joined;
    var buf := new char[len + 1](_ => '\0');
    WriteAll(domain, buf);
    dn := Some(buf[..len]);
  }

  lemma JoinedEmptyIff(labels: seq<string>)
    ensures |Joined(labels)| == 0 <==> labels == []
  {
  }

  // ---------------------------------------------------------------- reading the DN back

  function CommaAt(s: string): (n: nat)
    ensures n <= |s| && ',' !in s[..n] && (n < |s| ==> s[n] == ',')
  {
    if s == "" || s[0] == ',' then 0 else
      assert s[..1 + CommaAt(s[1..])] == [s[0]] + s[1..][..CommaAt(s[1..])];
      1 + CommaAt(s[1..])
  }

  /** The comma-separated parts. */
  function Parts(s: string): seq<string>
    decreases |s|
  {
    var n := CommaAt(s);
    if n == |s| then [s] else [s[..n]] + Parts(s[n + 1..])
  }

  /** The parts of a DN without their "DC=". */
  function Components(dn: string): seq<string> {
    seq(|Parts(dn)|, i requires 0 <= i < |Parts(dn)| => if |Parts(dn)[i]| >= 3 then Parts(dn)[i][3..] else "")
  }

  lemma CommaFree(s: string)
    requires ',' !in s
    ensures CommaAt(s) == |s|
  {
  }

  lemma CommaBefore(s: string, b: string)
    requires CommaAt(s) < |s|
    ensures CommaAt(s + b) == CommaAt(s)
  {
    var n, t := CommaAt(s), s + b;
    var m := CommaAt(t);
    assert t[n] == ',' && t[..n] == s[..n];
    assert !(m < n);
  }

  lemma CommaThen(a: string, b: string)
    requires ',' !in a
    ensures CommaAt(a + "," + b) == |a|
  {
    var t := a + "," + b;
    var m := CommaAt(t);
    assert t[|a|] == ',' && t[..|a|] == a;
    assert !(m < |a|);
  }

  lemma {:induction false} PartsMore(a: string, b: string)
    requires ',' !in b
    ensures Parts(a + "," + b) == Parts(a) + [b]
    decreases |a|
  {
    hide CommaAt;
    var n, t := CommaAt(a), a + "," + b;
    if n == |a| {
      assert a[..n] == a;
      CommaThen(a, b);
      CommaFree(b);
      assert t[..|a|] == a && t[|a| + 1..] == b;
    } else {
      CommaBefore(a, "," + b);
      assert a + ("," + b) == t;
      assert t[..n] == a[..n] && t[n + 1..] == a[n + 1..] + "," + b;
      PartsMore(a[n + 1..], b);
    }
  }

  predicate NoCommas(labels: seq<string>) {
    forall i :: 0 <= i < |labels| ==> ',' !in labels[i]
  }

  lemma {:induction false} PartsOfJoined(labels: seq<string>)
    requires labels != [] && NoCommas(labels)
    ensures |Parts(Joined(labels))| == |labels|
    ensures forall i :: 0 <= i < |labels| ==> Parts(Joined(labels))[i] == PREFIX + labels[i]
  {
    var k := |labels| - 1;
    var last := PREFIX + labels[k];
    assert ',' !in last;
    if k == 0 {
      CommaFree(last);
    } else {
      PartsOfJoined(labels[..k]);
      PartsMore(Joined(labels[..k]), last);
      assert labels[..k] + [labels[k]] == labels;
      JoinedMore(labels[..k], labels[k]);
      hide Parts, Joined;
      ghost var front := Joined(labels[..k]);
      assert Joined(labels) == front + "," + last;
      assert forall i :: 0 <= i < k ==> Parts(Joined(labels))[i] == Parts(front)[i];
    }
  }

  function CommaCount(s: string): nat {
    if s == "" then 0 else (if s[0] == ',' then 1 else 0) + CommaCount(s[1..])
  }

  lemma {:induction false} CommaCountConcat(a: string, b: string)
    ensures CommaCount(a + b) == CommaCount(a) + CommaCount(b)
  {
    if a == "" {
      assert a + b == b;
    } else {
      assert (a + b)[1..] == a[1..] + b;
      CommaCountConcat(a[1..], b);
    }
  }

  lemma {:induction false} CommaCounted(s: string)
    ensures CommaCount(s) == 0 <==> ',' !in s
  {
    if s != "" {
      CommaCounted(s[1..]);
      assert s == [s[0]] + s[1..];
    }
  }

  /** Each comma begins another part. */
  lemma {:induction false} PartsCount(s: string)
    ensures |Parts(s)| == 1 + CommaCount(s)
    decreases |s|
  {
    hide CommaAt;
    var n := CommaAt(s);
    CommaCounted(s[..n]);
    if n == |s| {
      assert s[..n] == s;
    } else {
      PartsCount(s[n + 1..]);
      assert s == s[..n] + ([','] + s[n + 1..]);
      CommaCountConcat(s[..n], [','] + s[n + 1..]);
      assert ([','] + s[n + 1..])[1..] == s[n + 1..];
    }
  }

  lemma {:induction false} JoinedCommas(labels: seq<string>)
    requires labels != []
    ensures CommaCount(Joined(labels)) >= |labels| - 1
    ensures !NoCommas(labels) ==> CommaCount(Joined(labels)) >= |labels|
  {
    var k := |labels| - 1;
    var front, last := labels[..k], labels[k];
    CommaCountConcat(PREFIX, last);
    CommaCounted(last);
    assert labels == front + [last];
    JoinedMore(front, last);
    if k == 0 {
      assert "" + (PREFIX + last) == PREFIX + last;
    } else {
      JoinedCommas(front);
      CommaCountConcat(Joined(front) + ",", PREFIX + last);
      CommaCountConcat(Joined(front), ",");
      assert CommaCount(",") == 1;
      assert !NoCommas(labels) ==> !NoCommas(front) || ',' in last;
    }
  }

  /** The labels can be recovered from the DN exactly when none contains a comma. */
  lemma ComponentsOfJoined(labels: seq<string>)
    requires labels != []
    ensures Components(Joined(labels)) == labels <==> NoCommas(labels)
  {
    if NoCommas(labels) {
      PartsOfJoined(labels);
      hide Joined, Parts, NoCommas;
    } else {
      PartsCount(Joined(labels));
      JoinedCommas(labels);
      hide Joined, Parts, NoCommas, CommaCount;
    }
  }

  // ---------------------------------------------------------------- which labels a name has

  predicate WellFormed(labels: seq<string>) {
    forall i :: 0 <= i < |labels| ==> labels[i] != "" && '.' !in labels[i]
  }

  /** The usual spelling of a domain name. */
  function Dotted(labels: seq<string>): string {
    if labels == [] then ""
    else if |labels| == 1 then labels[0]
    else labels[0] + "." + Dotted(labels[1..])
  }

  lemma NameThen(a: string, b: string)
    requires '.' !in a && (b == "" || b[0] == '.')
    ensures NameLength(a + b) == |a|
  {
    var t := a + b;
    var n := NameLength(t);
    assert t[..|a|] == a;
    assert b != "" ==> t[|a|] == '.';
    assert !(n < |a|);
  }

  /** Every label found is nonempty and has no dot. */
  lemma {:induction false} LabelsWellFormed(s: string)
    ensures WellFormed(Labels(s))
    decreases |s|
  {
    if s != "" {
      var n := NameLength(s);
      LabelsWellFormed(if n == 0 then s[1..] else s[n..]);
    }
  }

  /** A dotted name has exactly the labels it was spelled from. */
  lemma {:induction false} LabelsOfDotted(labels: seq<string>)
    requires WellFormed(labels)
    ensures Labels(Dotted(labels)) == labels
  {
    if labels != [] {
      var first, rest := labels[0], labels[1..];
      var tail := if rest == [] then "" else "." + Dotted(rest);
      assert Dotted(labels) == first + tail;
      LabelsOfDotted(rest);
      NameThen(first, tail);
      assert (first + tail)[..|first|] == first && (first + tail)[|first|..] == tail;
      if rest != [] { assert tail[1..] == Dotted(rest) && NameLength(tail) == 0; }
      assert Labels(tail) == rest;
    }
  }

  /** The DN of a dotted name carries its labels back exactly when none contains a comma. */
  lemma DnKeepsLabels(labels: seq<string>)
    requires labels != [] && WellFormed(labels)
    ensures Components(Joined(Labels(Dotted(labels)))) == labels <==> NoCommas(labels)
  {
    LabelsOfDotted(labels);
    ComponentsOfJoined(labels);
  }

  /** Two different names with one DN. */
  lemma NamesCollide(x: string, y: string)
    requires WellFormed([x, y])
    ensures Joined(Labels(x + ",DC=" + y)) == Joined(Labels(x + "." + y)) && x + ",DC=" + y != x + "." + y
  {
    var one := x + ",DC=" + y;
    assert [x, y][0] == x && [x, y][1] == y;
    assert '.' !in ",DC=";
    assert WellFormed([one]);
    LabelsOfDotted([one]);
    LabelsOfDotted([x, y]);
    assert [x, y][1..] == [y] && Dotted([x, y]) == x + "." + y && Dotted([one]) == one;
    assert |one| != |x + "." + y|;
    JoinedMore([x], y);
    assert [x] + [y] == [x, y];
    assert PREFIX + x + "," + (PREFIX + y) == PREFIX + one;
  }
}
