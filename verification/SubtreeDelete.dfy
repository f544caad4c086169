/** VmDirDeleteDITSubtree of lwraft/client/ldaputil.c: list a subtree, sort the names by length
    and delete from the longest to the shortest. */
module SubtreeDelete {

  /** A distinguished name as its RDNs, the entry's own first. */
  type DN = seq<string>

  /** The name as the server spells it. */
  function Spelled(d: DN): string {
    if d == [] then "" else if |d| == 1 then d[0] else d[0] + "," + Spelled(d[1..])
  }

  /** `d` is `base` or lies below it. */
  predicate Under(d: DN, base: DN) {
    |base| <= |d| && d[|d| - |base|..] == base
  }

  lemma UnderTransitive(e: DN, d: DN, base: DN)
    requires Under(e, d) && Under(d, base)
    ensures Under(e, base)
  {
    assert e[|e| - |base|..] == e[|e| - |d|..][|d| - |base|..];
  }

  /** A descendant's spelling is longer than its ancestor's. */
  lemma {:induction false} DescendantIsLonger(e: DN, d: DN)
    requires Under(e, d) && e != d && d != []
    ensures |Spelled(e)| > |Spelled(d)|
    decreases |e|
  {
    var up := e[1..];
    assert up[|up| - |d|..] == d;
    assert |e| >= 2 && Spelled(e) == e[0] + "," + Spelled(up);
    assert |Spelled(e)| == |e[0]| + 1 + |Spelled(up)|;
    if up != d { DescendantIsLonger(up, d); }
  }

  datatype LdapCode = Success | NoSuchObject | NotAllowedOnNonLeaf | Refused | InvalidParameter

  /** No entry lies below `d`. */
  ghost predicate Leaf(entries: set<DN>, d: DN) {
    forall e :: e in entries && Under(e, d) ==> e == d
  }

  /** A directory server that deletes leaves only, and refuses to delete the entries in `locked`
      for reasons of its own. */
  class Directory {
    var entries: set<DN>
    const locked: set<DN>

    constructor (entries: set<DN>, locked: set<DN>)
      ensures this.entries == entries && this.locked == locked
    {
      this.entries, this.locked := entries, locked;
    }

    /** ldap_delete_ext_s. */
    method Delete(d: DN) returns (code: LdapCode)
      modifies this
      ensures code == if d !in old(entries) then NoSuchObject
                      else if !Leaf(old(entries), d) then NotAllowedOnNonLeaf
                      else if d in locked then Refused else Success
      ensures code == Success ==> entries == old(entries) - {d}
      ensures code != Success ==> entries == old(entries)
    {
      if d !in entries { return NoSuchObject; }
      if exists e :: e in entries && Under(e, d) && e != d { return NotAllowedOnNonLeaf; }
      if d in locked { return Refused; }
      entries := entries - {d};
      code := Success;
    }
  }

  /** The result of a subtree search. */
  ghost function Subtree(entries: set<DN>, base: DN): set<DN> {
    set d | d in entries && Under(d, base)
  }

  /** The array after sorting: the subtree's names without repetition, shorter ones first, in any
      order among equals. */
  ghost predicate Sorted(names: seq<DN>, subtree: set<DN>) {
    && (forall d :: d in names <==> d in subtree)
    && (forall i, j :: 0 <= i < j < |names| ==> names[i] != names[j])
    && (forall i, j :: 0 <= i < j < |names| ==> |Spelled(names[i])| <= |Spelled(names[j])|)
  }

  /** Nothing at or below `d` is locked. */
  ghost predicate Free(d: DN, subtree: set<DN>, locked: set<DN>) {
    forall e :: e in subtree && Under(e, d) ==> e !in locked
  }

  ghost function FreePart(subtree: set<DN>, locked: set<DN>): set<DN> {
    set d | d in subtree && Free(d, subtree, locked)
  }

  /** What is gone after the names from position `i` on were tried. */
  ghost function Gone(names: seq<DN>, i: nat, subtree: set<DN>, locked: set<DN>): set<DN>
    requires i <= |names|
  {
    set d | d in names[i..] && Free(d, subtree, locked)
  }

  /** A longer name of the subtree has been tried before a shorter one. */
  lemma LongerTriedFirst(names: seq<DN>, subtree: set<DN>, i: nat, e: DN)
    requires Sorted(names, subtree) && i < |names| && e in subtree
    requires Under(e, names[i]) && e != names[i] && names[i] != []
    ensures e in names[i + 1..]
  {
    DescendantIsLonger(e, names[i]);
    hide Spelled;
    var k :| 0 <= k < |names| && names[k] == e;
    assert k > i;
    assert names[i + 1..][k - i - 1] == e;
  }

  /** When its turn comes, a name is a leaf and deletable exactly when nothing locked is at or
      below it. */
  lemma TurnOf(entries: set<DN>, base: DN, names: seq<DN>, i: nat, locked: set<DN>)
    requires base != [] && Sorted(names, Subtree(entries, base)) && i < |names|
    ensures var subtree := Subtree(entries, base);
            var now := entries - Gone(names, i + 1, subtree, locked);
            && names[i] in now
            && (Free(names[i], subtree, locked) <==>
                names[i] !in locked && Leaf(now, names[i]))
  {
    var d, subtree := names[i], Subtree(entries, base);
    var gone := Gone(names, i + 1, subtree, locked);
    assert d in names && d in subtree && d != [];
    assert d !in names[i + 1..];
    if Free(d, subtree, locked) {
      assert Under(d, d);
      forall e | e in entries - gone && Under(e, d)
        ensures e == d
      {
        if e != d {
          UnderTransitive(e, d, base);
          LongerTriedFirst(names, subtree, i, e);
          FreeBelow(e, d, subtree, locked);
        }
      }
    } else {
      var f :| f in subtree && Under(f, d) && f in locked;
      if f != d {
        assert Under(f, f);
        assert f !in gone;
      }
    }
  }

  lemma FreeBelow(e: DN, d: DN, subtree: set<DN>, locked: set<DN>)
    requires Under(e, d) && Free(d, subtree, locked)
    ensures Free(e, subtree, locked)
  {
    forall f | f in subtree && Under(f, e)
      ensures f !in locked
    {
      UnderTransitive(f, e, d);
    }
  }

  lemma NoneGone(names: seq<DN>, subtree: set<DN>, locked: set<DN>)
    ensures Gone(names, |names|, subtree, locked) == {}
  {
  }

  lemma GoneStep(names: seq<DN>, i: nat, subtree: set<DN>, locked: set<DN>)
    requires i < |names|
    ensures Free(names[i], subtree, locked) ==>
              Gone(names, i, subtree, locked) == Gone(names, i + 1, subtree, locked) + {names[i]}
    ensures !Free(names[i], subtree, locked) ==>
              Gone(names, i, subtree, locked) == Gone(names, i + 1, subtree, locked)
  {
    hide Free;
    assert names[i..] == [names[i]] + names[i + 1..];
  }

  /** The base of the subtree is its shortest name, so it is tried last. */
  lemma BaseComesFirst(entries: set<DN>, base: DN, names: seq<DN>)
    requires base != [] && base in entries && Sorted(names, Subtree(entries, base))
    ensures names != [] && names[0] == base
  {
    assert Under(base, base);
    assert base in names;
    assert names[0] in names;
    if names[0] != base {
      DescendantIsLonger(names[0], base);
    }
  }

  /** VmDirDeleteDITSubtree: an entry of the subtree disappears exactly when nothing at or below
      it is locked, nothing outside the subtree is touched, and success is reported exactly when
      the whole subtree is gone, although only the last delete's result is returned. */
  method DeleteDitSubtree(dir: Directory, base: DN, names: seq<DN>) returns (code: LdapCode, deleted: nat)
    requires base in dir.entries ==> Sorted(names, Subtree(dir.entries, base))
    modifies dir
    ensures base == [] ==> code == InvalidParameter && dir.entries == old(dir.entries)
    ensures base != [] && base !in old(dir.entries) ==> code == Success && dir.entries == old(dir.entries)
    ensures base != [] && base in old(dir.entries) ==>
              var subtree := old(Subtree(dir.entries, base));
              && dir.entries == old(dir.entries) - FreePart(subtree, dir.locked)
              && (code == Success <==> dir.entries == old(dir.entries) - subtree)
              && (code == Success <==> subtree !! dir.locked)
              && (code == Success ==> deleted == |subtree|)
  {
    if base == [] { return InvalidParameter, 0; }
    if base !in dir.entries { return Success, 0; }
    BaseComesFirst(dir.entries, base, names);
    Finished(dir.entries, base, names, dir.locked);
    hide Subtree, Free, FreePart, Gone, Sorted;
    code, deleted := DeleteNames(dir, base, names);
  }

  /** One round of the deleting loop; a name that is already gone counts as success. */
  method DeleteName(dir: Directory, base: DN, names: seq<DN>, i: nat, ghost before: set<DN>) returns (code: LdapCode, hit: bool)
    requires base != [] && i < |names| && Sorted(names, Subtree(before, base))
    requires dir.entries == before - Gone(names, i + 1, Subtree(before, base), dir.locked)
    modifies dir
    ensures (code == Success) == hit == Free(names[i], Subtree(before, base), dir.locked)
    ensures dir.entries == before - Gone(names, i, Subtree(before, base), dir.locked)
    ensures |Gone(names, i, Subtree(before, base), dir.locked)|
         == |Gone(names, i + 1, Subtree(before, base), dir.locked)| + if hit then 1 else 0
  {
    ghost var subtree := Subtree(before, base);
    TurnOf(before, base, names, i, dir.locked);
    GoneStep(names, i, subtree, dir.locked);
    hide Subtree, Leaf, Free, Gone, Sorted;
    code := dir.Delete(names[i]);
    hit := code == Success;
    if code == NoSuchObject { code := Success; }
  }

  /** The deleting loop, from the last name to the first. */
  method DeleteNames(dir: Directory, base: DN, names: seq<DN>) returns (code: LdapCode, deleted: nat)
    requires base != [] && names != [] && Sorted(names, Subtree(dir.entries, base))
    modifies dir
    ensures dir.entries == old(dir.entries) - Gone(names, 0, Subtree(old(dir.entries), base), dir.locked)
    ensures deleted == |Gone(names, 0, Subtree(old(dir.entries), base), dir.locked)|
    ensures code == Success <==> Free(names[0], Subtree(old(dir.entries), base), dir.locked)
  {
    ghost var before, subtree := dir.entries, Subtree(dir.entries, base);
    hide Subtree, Leaf, Free, Gone, Sorted;
    NoneGone(names, subtree, dir.locked);
    code, deleted := Success, 0;
    var i := |names|;
    while i > 0
      invariant 0 <= i <= |names|
      invariant dir.entries == before - Gone(names, i, subtree, dir.locked)
      invariant deleted == |Gone(names, i, subtree, dir.locked)|
      invariant i < |names| ==> (code == Success <==> Free(names[i], subtree, dir.locked))
    {
      i := i - 1;
      var hit;
      code, hit := DeleteName(dir, base, names, i, before);
      if hit { deleted := deleted + 1; }
    }
  }

  /** At the end the base decides: it is gone exactly when everything is. */
  lemma Finished(entries: set<DN>, base: DN, names: seq<DN>, locked: set<DN>)
    requires base != [] && base in entries && Sorted(names, Subtree(entries, base))
    ensures var subtree := Subtree(entries, base);
            && Gone(names, 0, subtree, locked) == FreePart(subtree, locked)
            && (Free(base, subtree, locked) <==> subtree !! locked)
            && (Free(base, subtree, locked) <==> entries - Gone(names, 0, subtree, locked) == entries - subtree)
            && (Free(base, subtree, locked) ==> Gone(names, 0, subtree, locked) == subtree)
  {
    var subtree := Subtree(entries, base);
    var gone := Gone(names, 0, subtree, locked);
    assert names[0..] == names && Under(base, base) && base in subtree;
    if Free(base, subtree, locked) {
      forall d | d in subtree ensures Free(d, subtree, locked) { FreeBelow(d, base, subtree, locked); }
    } else {
      assert base in entries - gone && base !in entries - subtree;
    }
  }
}
