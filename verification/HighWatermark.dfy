/** VmDirLdapGetHighWatermark of lwraft/client/repadmin.c: walks a partner's changes backwards in
    windows of USNs until one is found that the local up-to-date vector covers. */
module HighWatermark {
  import opened Bytes
  import opened Text

  const STEP: int := 100
  const BUFFER: int := 10000
  const OC_DIR_SERVER: string := "vmwDirServer"
  const OC_REPLICATION_AGREEMENT: string := "vmwReplicationAgreement"

  /** One metadata value of an entry: about another attribute, about uSNChanged, or about
      uSNChanged but not parseable. */
  datatype Metadata = OtherAttribute | UsnChanged(originatingId: string, originatingUsn: int) | Malformed

  datatype Change = Change(usn: int, classes: seq<string>, metadata: seq<Metadata>)

  /** One element of the local up-to-date vector. */
  datatype Vector = Vector(invocationId: string, maxOriginatingUsn: int)

  datatype Outcome = Watermark(usn: nat) | ParseError

  // ---------------------------------------------------------------- one change

  predicate Replicable(classes: seq<string>) {
    forall i :: 0 <= i < |classes| ==>
      !SameText(classes[i], OC_DIR_SERVER) && !SameText(classes[i], OC_REPLICATION_AGREEMENT)
  }

  /** _VmDirIsClassReplicable. */
  method IsClassReplicable(classes: seq<string>) returns (yes: bool)
    ensures yes == Replicable(classes)
    ensures yes <==> forall i :: 0 <= i < |classes| ==>
              !SameText(classes[i], "vmwDirServer") && !SameText(classes[i], "vmwReplicationAgreement")
  {
    hide SameText;
    for i := 0 to |classes|
      invariant Replicable(classes[..i])
    {
      if SameText(classes[i], OC_DIR_SERVER) || SameText(classes[i], OC_REPLICATION_AGREEMENT) { return false; }
    }
    assert classes[..|classes|] == classes;
    yes := true;
  }

  /** The first vector element with the originating id decides. */
  predicate Covers(vector: seq<Vector>, id: string, usn: int) {
    vector != [] &&
    if SameText(vector[0].invocationId, id) then vector[0].maxOriginatingUsn >= usn else Covers(vector[1..], id, usn)
  }

  /** Element `k` is the first of the vector with the originating id. */
  ghost predicate FirstOf(vector: seq<Vector>, id: string, k: nat) {
    k < |vector| && SameText(vector[k].invocationId, id)
    && forall j :: 0 <= j < k ==> !SameText(vector[j].invocationId, id)
  }

  /** That element reaches at least as far as the originating USN. */
  ghost predicate CoveredAt(vector: seq<Vector>, id: string, usn: int, k: nat) {
    FirstOf(vector, id, k) && usn <= vector[k].maxOriginatingUsn
  }

  /** An originating USN is covered exactly when the vector has its id and the first element with
      that id reaches at least as far. */
  lemma {:induction false} CoversMeaning(vector: seq<Vector>, id: string, usn: int)
    ensures Covers(vector, id, usn) <==> exists k: nat :: CoveredAt(vector, id, usn, k)
  {
    hide SameText;
    if vector != [] {
      if SameText(vector[0].invocationId, id) {
        assert CoveredAt(vector, id, usn, 0) <==> usn <= vector[0].maxOriginatingUsn;
      } else {
        CoversMeaning(vector[1..], id, usn);
        hide CoveredAt;
        if k: nat :| CoveredAt(vector, id, usn, k) { CoveredBehind(vector, id, usn, k); }
        if k: nat :| CoveredAt(vector[1..], id, usn, k) { CoveredBehind(vector, id, usn, k + 1); }
      }
    }
  }

  lemma CoveredBehind(vector: seq<Vector>, id: string, usn: int, k: nat)
    requires vector != [] && !SameText(vector[0].invocationId, id)
    ensures CoveredAt(vector, id, usn, k) <==> k > 0 && CoveredAt(vector[1..], id, usn, k - 1)
  {
    hide SameText;
    var rest := vector[1..];
    assert forall j :: 0 < j < |vector| ==> vector[j] == rest[j - 1];
    assert forall j :: 0 <= j < |rest| ==> rest[j] == vector[j + 1];
  }

  datatype Verdict = Skip | Hit | Broken

  /** The metadata values in order: the first covered one is a hit, an unparseable one met before
      that is an error. */
  function Scan(metadata: seq<Metadata>, vector: seq<Vector>): Verdict {
    if metadata == [] then Skip
    else match metadata[0]
      case OtherAttribute => Scan(metadata[1..], vector)
      case Malformed => Broken
      case UsnChanged(id, usn) => if Covers(vector, id, usn) then Hit else Scan(metadata[1..], vector)
  }

  function Judge(c: Change, vector: seq<Vector>): Verdict {
    if Replicable(c.classes) then Scan(c.metadata, vector) else Skip
  }

  predicate CoveredValue(v: Metadata, vector: seq<Vector>) {
    v.UsnChanged? && Covers(vector, v.originatingId, v.originatingUsn)
  }

  /** Value `i` is covered and all before it can be parsed. */
  predicate HitAt(metadata: seq<Metadata>, vector: seq<Vector>, i: nat) {
    i < |metadata| && CoveredValue(metadata[i], vector) && Malformed !in metadata[..i]
  }

  /** The scan hits exactly when some value about uSNChanged is covered and no value before it is
      malformed, and it skips exactly when none is covered or malformed. */
  lemma {:induction false} ScanMeaning(metadata: seq<Metadata>, vector: seq<Vector>)
    ensures Scan(metadata, vector) == Hit <==> exists i: nat :: HitAt(metadata, vector, i)
    ensures Scan(metadata, vector) == Skip <==>
            forall i :: 0 <= i < |metadata| ==> !metadata[i].Malformed? && !CoveredValue(metadata[i], vector)
  {
    hide Covers;
    if metadata != [] {
      var rest := metadata[1..];
      ScanMeaning(rest, vector);
      if CoveredValue(metadata[0], vector) {
        assert HitAt(metadata, vector, 0);
      } else if !metadata[0].Malformed? {
        if i: nat :| HitAt(rest, vector, i) {
          assert metadata[..i + 1] == [metadata[0]] + rest[..i];
          assert HitAt(metadata, vector, i + 1);
        }
        if i: nat :| HitAt(metadata, vector, i) {
          assert metadata[..i] == [metadata[0]] + rest[..i - 1];
          assert HitAt(rest, vector, i - 1);
        }
        SkipRest(metadata, vector);
      } else {
        assert forall i: nat :: 0 < i <= |metadata| ==> metadata[..i][0] == metadata[0];
      }
    }
  }

  lemma SkipRest(metadata: seq<Metadata>, vector: seq<Vector>)
    requires metadata != [] && !metadata[0].Malformed? && !CoveredValue(metadata[0], vector)
    ensures (forall i :: 0 <= i < |metadata| ==> !metadata[i].Malformed? && !CoveredValue(metadata[i], vector))
       <==> (forall i :: 0 <= i < |metadata[1..]| ==> !metadata[1..][i].Malformed? && !CoveredValue(metadata[1..][i], vector))
  {
    hide CoveredValue;
    var rest := metadata[1..];
    assert forall i :: 0 < i < |metadata| ==> metadata[i] == rest[i - 1];
  }

  method FindCovering(vector: seq<Vector>, id: string, usn: int) returns (found: bool)
    ensures found == Covers(vector, id, usn)
  {
    hide SameText;
    for i := 0 to |vector|
      invariant Covers(vector, id, usn) == Covers(vector[i..], id, usn)
    {
      assert vector[i..][1..] == vector[i + 1..];
      if SameText(vector[i].invocationId, id) { return vector[i].maxOriginatingUsn >= usn; }
    }
    found := false;
  }

  method Examine(c: Change, vector: seq<Vector>) returns (v: Verdict)
    ensures v == Judge(c, vector)
  {
    hide Covers, Replicable;
    var replicable := IsClassReplicable(c.classes);
    if !replicable { return Skip; }
    for i := 0 to |c.metadata|
      invariant Scan(c.metadata, vector) == Scan(c.metadata[i..], vector)
    {
      assert c.metadata[i..][1..] == c.metadata[i + 1..];
      match c.metadata[i] {
        case OtherAttribute =>
        case Malformed => return Broken;
        case UsnChanged(id, usn) =>
          var covered := FindCovering(vector, id, usn);
          if covered { return Hit; }
      }
    }
    v := Skip;
  }

  // ---------------------------------------------------------------- windows

  /** Number, counted from the newest, of the window that USN `u` falls into. */
  function WindowOf(max: int, u: int): int {
    (max - u) / STEP
  }

  /** The windows that the loop asks for are exactly the numbered ones, so they partition the
      USNs from zero to the partner's maximum. */
  lemma WindowBounds(max: int, k: nat, u: int)
    requires 0 <= u <= max
    ensures var high := max - 100 * k;
            var low := if high - 99 > 0 then high - 99 else 0;
            low <= u <= high <==> WindowOf(max, u) == k
  {
  }

  predicate Seen(c: Change, max: int) { 0 <= c.usn <= max }

  /** Changes that end the search when they are met. */
  predicate Decisive(changes: seq<Change>, vector: seq<Vector>, max: int, i: nat)
    requires i < |changes|
  {
    Seen(changes[i], max) && Judge(changes[i], vector) != Skip
  }

  /** Change `i` is decisive, no decisive change lies in a newer window, and among those of its
      window the server lists it first. */
  ghost predicate Chosen(changes: seq<Change>, vector: seq<Vector>, max: int, i: nat)
    requires i < |changes|
  {
    Decisive(changes, vector, max, i)
    && forall j: nat :: j < |changes| && Decisive(changes, vector, max, j) ==>
         WindowOf(max, changes[i].usn) < WindowOf(max, changes[j].usn)
         || (WindowOf(max, changes[i].usn) == WindowOf(max, changes[j].usn) && i <= j)
  }

  /** The watermark is stored through a cast to a 32-bit DWORD. */
  function Stored(u: int): nat {
    (if u - BUFFER > 0 then u - BUFFER else 0) % 0x1_0000_0000
  }

  /** The cast is harmless exactly while the watermark fits 32 bits. */
  lemma StoredExact(u: int)
    requires u >= 0
    ensures Stored(u) == (if u > 10000 then u - 10000 else 0) <==> u < 0x1_0000_0000 + 10000
  {
  }

  /** No decisive change among the first `n` of window `k`. */
  ghost predicate NoneBefore(changes: seq<Change>, vector: seq<Vector>, max: int, k: int, n: nat)
    requires n <= |changes|
  {
    forall j: nat :: j < n && Decisive(changes, vector, max, j) ==> WindowOf(max, changes[j].usn) != k
  }

  ghost predicate NoneNewer(changes: seq<Change>, vector: seq<Vector>, max: int, k: int) {
    forall j: nat :: j < |changes| && Decisive(changes, vector, max, j) ==> WindowOf(max, changes[j].usn) >= k
  }

  /** One window: the changes whose USN the search filter admits, in the order the server
      returns them. */
  method SearchWindow(changes: seq<Change>, vector: seq<Vector>, max: int, high: int, ghost k: nat)
    returns (outcome: Option<Outcome>)
    requires high == max - STEP * k >= 0 && NoneNewer(changes, vector, max, k)
    ensures outcome == None ==> NoneBefore(changes, vector, max, k, |changes|)
    ensures outcome.Some? ==> exists i: nat :: i < |changes| && Chosen(changes, vector, max, i) && Reports(outcome.value, changes[i], vector)
  {
    hide Judge, Stored;
    var low := if high - STEP + 1 > 0 then high - STEP + 1 else 0;
    for i := 0 to |changes|
      invariant NoneBefore(changes, vector, max, k, i)
    {
      var c := changes[i];
      if 0 <= c.usn <= max { WindowBounds(max, k, c.usn); }
      if low <= c.usn <= high {
        var v := Examine(c, vector);
        if v == Hit {
          assert Chosen(changes, vector, max, i);
          return Some(Watermark(Stored(c.usn)));
        }
        if v == Broken {
          assert Chosen(changes, vector, max, i);
          return Some(ParseError);
        }
      }
    }
    outcome := None;
  }

  /** What the search reports for the change that ended it. */
  predicate Reports(r: Outcome, c: Change, vector: seq<Vector>) {
    r == if Judge(c, vector) == Hit then Watermark(Stored(c.usn)) else ParseError
  }

  /** If any change is decisive, one is chosen. */
  lemma {:induction false} SomeChosen(changes: seq<Change>, vector: seq<Vector>, max: int, i: nat) returns (c: nat)
    requires i < |changes| && Decisive(changes, vector, max, i)
    ensures c < |changes| && Chosen(changes, vector, max, c)
    decreases WindowOf(max, changes[i].usn), i
  {
    hide Judge;
    if Chosen(changes, vector, max, i) {
      c := i;
    } else {
      var j: nat :| j < |changes| && Decisive(changes, vector, max, j)
        && (WindowOf(max, changes[j].usn) < WindowOf(max, changes[i].usn)
            || (WindowOf(max, changes[j].usn) == WindowOf(max, changes[i].usn) && j < i));
      c := SomeChosen(changes, vector, max, j);
    }
  }

  predicate Covered(c: Change, vector: seq<Vector>, max: int) {
    Seen(c, max) && Judge(c, vector) == Hit
  }

  /** A change is covered exactly when its USN lies between zero and the maximum, it has neither of
      the two local classes, and its metadata hits. */
  lemma CoveredMeaning(c: Change, vector: seq<Vector>, max: int)
    ensures Covered(c, vector, max) <==>
            && 0 <= c.usn <= max
            && (forall i :: 0 <= i < |c.classes| ==>
                  !SameText(c.classes[i], "vmwDirServer") && !SameText(c.classes[i], "vmwReplicationAgreement"))
            && exists i: nat :: HitAt(c.metadata, vector, i)
  {
    ScanMeaning(c.metadata, vector);
    hide SameText, Scan, HitAt;
  }

  /** No covered change lies in a newer window than change `i`. */
  ghost predicate InNewestWindow(changes: seq<Change>, vector: seq<Vector>, max: int, i: nat)
    requires i < |changes|
  {
    forall j :: 0 <= j < |changes| && Covered(changes[j], vector, max) ==>
      WindowOf(max, changes[i].usn) <= WindowOf(max, changes[j].usn)
  }

  /** Zero without a covered change, otherwise the stored watermark of a covered change in the
      newest window that holds any. */
  ghost predicate ReadsNewest(r: Outcome, changes: seq<Change>, vector: seq<Vector>, max: int) {
    && ((forall i :: 0 <= i < |changes| ==> !Covered(changes[i], vector, max)) ==> r == Watermark(0))
    && ((exists i :: 0 <= i < |changes| && Covered(changes[i], vector, max)) ==>
          exists i: nat :: i < |changes| && Covered(changes[i], vector, max)
                           && InNewestWindow(changes, vector, max, i) && r == Watermark(Stored(changes[i].usn)))
  }

  /** The reading of the chosen change when all metadata parses. */
  lemma WatermarkMeaning(changes: seq<Change>, vector: seq<Vector>, max: int, r: Outcome)
    requires forall i :: 0 <= i < |changes| ==> Judge(changes[i], vector) != Broken
    requires (forall i: nat :: i < |changes| ==> !Decisive(changes, vector, max, i)) ==> r == Watermark(0)
    requires forall i: nat :: i < |changes| && Chosen(changes, vector, max, i) ==> Reports(r, changes[i], vector)
    ensures ReadsNewest(r, changes, vector, max)
  {
    hide Judge, Stored;
    if i: nat :| i < |changes| && Covered(changes[i], vector, max) {
      var c := SomeChosen(changes, vector, max, i);
      assert Decisive(changes, vector, max, c) && Covered(changes[c], vector, max);
      forall j | 0 <= j < |changes| && Covered(changes[j], vector, max)
        ensures WindowOf(max, changes[c].usn) <= WindowOf(max, changes[j].usn)
      {
        assert Decisive(changes, vector, max, j);
      }
      assert InNewestWindow(changes, vector, max, c);
    }
  }

  /** VmDirLdapGetHighWatermark: the chosen change determines the result; without a decisive
      change it is zero. When all metadata parses, that means zero without a covered change and
      otherwise the stored watermark of a covered one in the newest window that holds any. */
  method GetHighWatermark(maxVisible: int, changes: seq<Change>, vector: seq<Vector>) returns (r: Outcome)
    ensures (forall i: nat :: i < |changes| ==> !Decisive(changes, vector, maxVisible, i)) ==> r == Watermark(0)
    ensures forall i: nat :: i < |changes| && Chosen(changes, vector, maxVisible, i) ==> Reports(r, changes[i], vector)
    ensures (forall i :: 0 <= i < |changes| ==> Judge(changes[i], vector) != Broken) ==>
              ReadsNewest(r, changes, vector, maxVisible)
  {
    r := StepBack(maxVisible, changes, vector);
    if forall i :: 0 <= i < |changes| ==> Judge(changes[i], vector) != Broken {
      WatermarkMeaning(changes, vector, maxVisible, r);
    }
  }

  /** The loop over the windows, newest first. */
  method StepBack(maxVisible: int, changes: seq<Change>, vector: seq<Vector>) returns (r: Outcome)
    ensures (forall i: nat :: i < |changes| ==> !Decisive(changes, vector, maxVisible, i)) ==> r == Watermark(0)
    ensures forall i: nat :: i < |changes| && Chosen(changes, vector, maxVisible, i) ==> Reports(r, changes[i], vector)
  {
    hide Judge, Stored, Reports;
    var high := maxVisible;
    ghost var k: nat := 0;
    while high >= 0
      invariant high == maxVisible - STEP * k
      invariant NoneNewer(changes, vector, maxVisible, k)
      decreases high + STEP
    {
      var found := SearchWindow(changes, vector, maxVisible, high, k);
      if found.Some? {
        ghost var i: nat :| i < |changes| && Chosen(changes, vector, maxVisible, i) && Reports(found.value, changes[i], vector);
        return found.value;
      }
      high := high - STEP;
      k := k + 1;
    }
    r := Watermark(0);
  }
}
