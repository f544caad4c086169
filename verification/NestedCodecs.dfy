/** The codecs of lwraft/common/marshalutil.c whose output travels inside a BLOB argument:
    arrays of wide strings and counted data containers. */
module NestedCodecs {
  import opened Bytes
  import opened Wire
  import opened Marshal

  type WString = Option<seq<uint16>>

  predicate ValidStrings(strings: seq<WString>) {
    forall i :: 0 <= i < |strings| && strings[i].Some? ==> 0 !in strings[i].value && 2 * |strings[i].value| < LIMIT
  }

  function Chars(s: WString): seq<uint16> {
    if s.Some? then s.value else []
  }

  function EncodeString(s: WString): (b: seq<byte>)
    ensures |b| == 8 + 2 * |Chars(s)|
  {
    LE(|Chars(s)|, 8) + WBytes(Chars(s))
  }

  function EncodeStrings(strings: seq<WString>): seq<byte> {
    if strings == [] then [] else EncodeString(strings[0]) + EncodeStrings(strings[1..])
  }

  /** The blob: its own size, the element count, the elements. */
  function StringArrayBlob(strings: seq<WString>, size: uint32): seq<byte>
    requires |strings| < DWORD_RANGE
  {
    LE(size, 4) + LE(|strings|, 4) + EncodeStrings(strings)
  }

  /** An empty string comes back as NULL. */
  function CanonString(s: WString): WString {
    if Chars(s) == [] then None else s
  }

  function CanonStrings(strings: seq<WString>): (r: seq<WString>)
    ensures |r| == |strings|
  {
    if strings == [] then [] else [CanonString(strings[0])] + CanonStrings(strings[1..])
  }

  lemma {:induction false} EncodeStringsAppend(strings: seq<WString>, s: WString)
    ensures EncodeStrings(strings + [s]) == EncodeStrings(strings) + EncodeString(s)
  {
    hide EncodeString;
    if strings == [] {
      assert [s][1..] == [];
    } else {
      assert (strings + [s])[1..] == strings[1..] + [s];
      EncodeStringsAppend(strings[1..], s);
    }
  }

  lemma EncodeStringsStep(strings: seq<WString>, i: nat)
    requires i < |strings|
    ensures EncodeStrings(strings[..i + 1]) == EncodeStrings(strings[..i]) + EncodeString(strings[i])
  {
    assert strings[..i + 1] == strings[..i] + [strings[i]];
    EncodeStringsAppend(strings[..i], strings[i]);
  }

  lemma {:induction false} EncodeStringsPrefix(strings: seq<WString>, i: nat)
    requires i <= |strings|
    ensures |EncodeStrings(strings[..i])| <= |EncodeStrings(strings)|
    decreases |strings| - i
  {
    if i == |strings| {
      assert strings[..i] == strings;
    } else {
      EncodeStringsStep(strings, i);
      EncodeStringsPrefix(strings, i + 1);
    }
  }

  /** VmDirMarshalStringArrayGetSize. */
  method StringArraySize(strings: seq<WString>) returns (size: uint32)
    ensures size == (8 + |EncodeStrings(strings)|) % DWORD_RANGE
  {
    hide EncodeString;
    size := 8;
    for i := 0 to |strings|
      invariant size == (8 + |EncodeStrings(strings[..i])|) % DWORD_RANGE
    {
      var add := 8;
      if strings[i].Some? { add := add + 2 * |strings[i].value|; }
      ModAdd(8 + |EncodeStrings(strings[..i])|, add);
      EncodeStringsStep(strings, i);
      size := (size + add) % DWORD_RANGE;
    }
    assert strings[..|strings|] == strings;
  }

  /** The bytes before the cursor are `text`, the ones behind it still zero. */
  ghost predicate Filled(temp: array<byte>, cursor: nat, text: seq<byte>)
    reads temp
  {
    cursor <= temp.Length && temp[..cursor] == text && Blank(temp, cursor)
  }

  /** One element of VmDirMarshalStringArray. */
  method PutString(temp: array<byte>, at: nat, room: uint32, s: WString, ghost text: seq<byte>)
    returns (code: Code, cursor: nat, remaining: uint32)
    requires at + room == temp.Length && room < LIMIT && ValidStrings([s]) && Filled(temp, at, text)
    modifies temp
    ensures code == if |EncodeString(s)| <= room then Success else NotEnoughMemory
    ensures code == Success ==> cursor == at + |EncodeString(s)| && remaining == room - |EncodeString(s)|
    ensures code == Success ==> Filled(temp, cursor, text + EncodeString(s))
  {
    assert s == [s][0];
    Unfold(s);
    hide LE, WBytes, EncodeString;
    code, cursor, remaining := PutText(temp, at, room, |Chars(s)|, WBytes(Chars(s)));
  }

  lemma OneMoreString(head: seq<byte>, strings: seq<WString>, i: nat)
    requires i < |strings|
    ensures head + EncodeStrings(strings[..i]) + EncodeString(strings[i]) == head + EncodeStrings(strings[..i + 1])
    ensures |EncodeStrings(strings[..i + 1])| == |EncodeStrings(strings[..i])| + |EncodeString(strings[i])|
    ensures |EncodeStrings(strings[..i + 1])| <= |EncodeStrings(strings)|
  {
    hide EncodeString, EncodeStrings;
    EncodeStringsStep(strings, i);
    EncodeStringsPrefix(strings, i + 1);
    Associates(head, EncodeStrings(strings[..i]), EncodeString(strings[i]));
  }

  /** The element loop of VmDirMarshalStringArray. */
  method PutStrings(temp: array<byte>, start: nat, room: uint32, strings: seq<WString>, ghost head: seq<byte>)
    returns (code: Code, cursor: nat)
    requires start + room == temp.Length && room < LIMIT && ValidStrings(strings) && Filled(temp, start, head)
    modifies temp
    ensures code == if |EncodeStrings(strings)| <= room then Success else NotEnoughMemory
    ensures code == Success ==> cursor == start + |EncodeStrings(strings)|
    ensures code == Success ==> Filled(temp, cursor, head + EncodeStrings(strings))
  {
    cursor, code := start, Success;
    var remaining: uint32 := room;
    assert EncodeStrings(strings[..0]) == [] && head + [] == head;
    hide Chars, EncodeString, EncodeStrings, Filled;
    for i := 0 to |strings|
      invariant cursor + remaining == temp.Length && remaining < LIMIT
      invariant cursor == start + |EncodeStrings(strings[..i])|
      invariant Filled(temp, cursor, head + EncodeStrings(strings[..i]))
    {
      OneMoreString(head, strings, i);
      code, cursor, remaining := PutString(temp, cursor, remaining, strings[i], head + EncodeStrings(strings[..i]));
      if code != Success { return; }
    }
    assert strings[..|strings|] == strings;
    code := Success;
  }

  /** VmDirMarshalStringArray: every size from the computed one up to 2^31 + 3 is accepted,
      every other nonzero one is too small. */
  method MarshalStringArray(strings: seq<WString>, size: uint32, blob: array<byte>) returns (code: Code)
    requires |strings| < DWORD_RANGE && ValidStrings(strings)
    requires size <= blob.Length
    modifies blob
    ensures code == if size == 0 then InvalidParameter
                    else if 8 + |EncodeStrings(strings)| <= size < LIMIT + 4 then Success else NotEnoughMemory
    ensures code != Success ==> blob[..] == old(blob[..])
    ensures code == Success ==>
              var printed := StringArrayBlob(strings, size);
              && |printed| <= size && blob[..|printed|] == printed
              && (forall k :: |printed| <= k < size ==> blob[k] == 0)
              && blob[size..] == old(blob[size..])
  {
    hide LE, EncodeStrings, ValidStrings;
    if size == 0 { return InvalidParameter; }
    var temp := new byte[size](_ => 0);
    var cursor: nat, remaining: uint32 := 0, size;
    code, cursor, remaining := Put(temp, cursor, remaining, LE(size, 4));
    if code != Success { return; }
    code, cursor, remaining := Put(temp, cursor, remaining, LE(|strings|, 4));
    if code != Success { return; }
    assert temp[..cursor] == LE(size, 4) + LE(|strings|, 4);
    code, cursor := PutStrings(temp, cursor, remaining, strings, LE(size, 4) + LE(|strings|, 4));
    if code != Success { return; }
    forall k | 0 <= k < size { blob[k] := temp[k]; }
    assert blob[..cursor] == temp[..cursor];
  }

  lemma Unfold(s: WString)
    ensures EncodeString(s) == LE(|Chars(s)|, 8) + WBytes(Chars(s))
  {
  }

  // ---------------------------------------------------------------- reading an array

  /** `Beyond` marks the runs that read past the blob, where the C code is undefined. */
  datatype Read<+T> = Got(value: T) | Refused(code: Code) | Beyond

  /** An element and how far the cursor moved over it. */
  datatype Element = Element(text: WString, used: nat)

  /** One element: its length field and its characters, each behind a size test. Sizes are
      computed in 64 bits; a C reader sees the characters before the first NUL. */
  function ReadString(b: seq<byte>, room: uint32): (r: Read<Element>)
    requires |b| == room
    ensures r.Got? ==> 8 + 2 * |Chars(r.value.text)| <= r.value.used <= |b|
    ensures r.Got? && r.value.text.Some? ==> 0 !in r.value.text.value
  {
    if CheckMemory(8, room) == None then Refused(NotEnoughMemory)
    else if room < 8 then Beyond
    else
      FromLEBound(b[..8]); Pow256Values();
      var n := FromLE(b[..8]);
      var size := WideSize(n);
      if n == 0 then Got(Element(None, 8))
      else if CheckMemory(size, room - 8) == None then Refused(NotEnoughMemory)
      else if size + 2 == WORD then Refused(InvalidParameter)
      else if size > room - 8 then Beyond
      else Got(Element(Some(CString(FromWBytes(b[8..8 + size]), 0)), 8 + size))
  }

  function ReadStrings(count: nat, b: seq<byte>): (r: Read<seq<WString>>)
    requires |b| < DWORD_RANGE
    ensures r.Got? ==> |r.value| == count
  {
    if count == 0 then Got([]) else
      match ReadString(b, |b|)
      case Refused(c) => Refused(c)
      case Beyond => Beyond
      case Got(s) =>
        match ReadStrings(count - 1, b[s.used..])
        case Got(rest) => Got([s.text] + rest)
        case Refused(c) => Refused(c)
        case Beyond => Beyond
  }

  function StringArrayOf(blob: seq<byte>): Read<seq<WString>>
    requires |blob| < DWORD_RANGE
  {
    if |blob| < 8 then Refused(InvalidParameter)
    else if CheckMemory(4, |blob|) == None then Refused(NotEnoughMemory)
    else if FromLE(blob[..4]) != |blob| then Refused(InvalidParameter)
    else ReadStrings(FromLE(blob[4..8]), blob[8..])
  }

  /** How far the cursor is behind the first `k` elements. */
  function CursorAfter(k: nat, b: seq<byte>): (n: nat)
    requires |b| < DWORD_RANGE && ReadStrings(k, b).Got?
    ensures n <= |b|
  {
    if k == 0 then 0 else
      var used := ReadString(b, |b|).value.used;
      used + CursorAfter(k - 1, b[used..])
  }

  /** The first element that cannot be read decides the outcome. */
  lemma {:induction false} FirstFailure(k: nat, count: nat, b: seq<byte>)
    requires |b| < DWORD_RANGE && k < count && ReadStrings(k, b).Got?
    ensures var rest := b[CursorAfter(k, b)..];
            match ReadString(rest, |rest|)
            case Refused(c) => ReadStrings(count, b) == Refused(c)
            case Beyond => ReadStrings(count, b) == Beyond
            case Got(_) => true
  {
    hide ReadString;
    if k > 0 {
      var used := ReadString(b, |b|).value.used;
      FirstFailure(k - 1, count - 1, b[used..]);
      assert b[used..][CursorAfter(k - 1, b[used..])..] == b[CursorAfter(k, b)..];
    }
  }

  /** A blob below 2 GiB without room for its two fields or with another length in front is
      refused; any other is read element by element. */
  lemma ArrayHeaderDecides(blob: seq<byte>)
    requires |blob| < LIMIT
    ensures |blob| < 8 || blob[..4] != LE(|blob|, 4) ==> StringArrayOf(blob) == Refused(InvalidParameter)
    ensures |blob| >= 8 && blob[..4] == LE(|blob|, 4) ==> StringArrayOf(blob) == ReadStrings(FromLE(blob[4..8]), blob[8..])
  {
    CheckMemoryMeaning(4, |blob|);
    if |blob| >= 8 { FieldBytes(|blob|, blob[..4]); }
    hide LE, FromLE, ReadStrings, CheckMemory;
  }

  lemma ReadStringAt(b: seq<byte>, n: nat, chars: seq<uint16>)
    requires 8 + 2 * n <= |b| < LIMIT && FromLE(b[..8]) == n == |chars| && 0 !in chars
    requires FromWBytes(b[8..8 + 2 * n]) == chars
    ensures ReadString(b, |b|) == Got(Element(if n == 0 then None else Some(chars), 8 + 2 * n))
  {
    hide FromLE, FromWBytes, CString;
    CheckMemoryMeaning(8, |b|);
    CheckMemoryMeaning(2 * n, |b| - 8);
  }

  lemma ReadStringOfEncoding(s: WString, tail: seq<byte>)
    requires ValidStrings([s]) && |EncodeString(s) + tail| < LIMIT
    ensures ReadString(EncodeString(s) + tail, |EncodeString(s) + tail|) == Got(Element(CanonString(s), |EncodeString(s)|))
  {
    hide ReadString, LE, WBytes, FromLE, FromWBytes, Pow256;
    var b := EncodeString(s) + tail;
    Pow256Values();
    assert [s][0] == s;
    ReadText(|Chars(s)|, WBytes(Chars(s)), tail);
    FromWBytesInverts(Chars(s));
    assert b[8..8 + 2 * |Chars(s)|] == WBytes(Chars(s));
    ReadStringAt(b, |Chars(s)|, Chars(s));
  }

  lemma {:induction false} ReadStringsOfEncoding(strings: seq<WString>, tail: seq<byte>)
    requires ValidStrings(strings) && |EncodeStrings(strings) + tail| < LIMIT
    ensures ReadStrings(|strings|, EncodeStrings(strings) + tail) == Got(CanonStrings(strings))
  {
    hide ReadString, EncodeString;
    if strings != [] {
      var s, rest := strings[0], EncodeStrings(strings[1..]) + tail;
      assert EncodeStrings(strings) + tail == EncodeString(s) + rest;
      assert ValidStrings([s]);
      ReadStringOfEncoding(s, rest);
      assert (EncodeString(s) + rest)[|EncodeString(s)|..] == rest;
      ReadStringsOfEncoding(strings[1..], tail);
    }
  }

  /** The element loop of VmDirUnMarshalStringArray. */
  method ReadAll(count: nat, b: seq<byte>) returns (r: Read<seq<WString>>)
    requires |b| < DWORD_RANGE
    ensures r == ReadStrings(count, b)
  {
    hide ReadString;
    var cursor, available, strings := 0, |b|, [];
    ContinueNothing(ReadStrings(count, b));
    while |strings| < count
      invariant |strings| <= count && 0 <= cursor && 0 <= available && cursor + available == |b|
      invariant ReadStrings(count, b) == Continue(strings, ReadStrings(count - |strings|, b[cursor..]))
    {
      var s := ReadString(b[cursor..], available);
      if s.Refused? { return Refused(s.code); }
      if s.Beyond? { return Beyond; }
      ContinueStep(strings, count - |strings|, b[cursor..]);
      var used := s.value.used;
      assert b[cursor..][used..] == b[cursor + used..];
      strings := strings + [s.value.text];
      cursor, available := cursor + used, available - used;
    }
    assert strings + [] == strings;
    r := Got(strings);
  }

  /** VmDirUnMarshalStringArray. */
  method UnMarshalStringArray(blob: seq<byte>) returns (r: Read<seq<WString>>)
    requires |blob| < DWORD_RANGE
    ensures r == StringArrayOf(blob)
  {
    hide FromLE, ReadStrings;
    if |blob| < 8 { return Refused(InvalidParameter); }
    if CheckMemory(4, |blob|) == None { return Refused(NotEnoughMemory); }
    if FromLE(blob[..4]) != |blob| { return Refused(InvalidParameter); }
    r := ReadAll(FromLE(blob[4..8]), blob[8..]);
  }

  function Continue(done: seq<WString>, rest: Read<seq<WString>>): Read<seq<WString>> {
    if rest.Got? then Got(done + rest.value) else rest
  }

  lemma ContinueNothing(rest: Read<seq<WString>>)
    ensures Continue([], rest) == rest
  {
    if rest.Got? { assert [] + rest.value == rest.value; }
  }

  lemma ContinueStep(done: seq<WString>, count: nat, b: seq<byte>)
    requires count > 0 && |b| < DWORD_RANGE && ReadString(b, |b|).Got?
    ensures var s := ReadString(b, |b|).value;
            Continue(done, ReadStrings(count, b)) == Continue(done + [s.text], ReadStrings(count - 1, b[s.used..]))
  {
    var s := ReadString(b, |b|).value;
    hide ReadString;
    var rest := ReadStrings(count - 1, b[s.used..]);
    if rest.Got? { assert done + ([s.text] + rest.value) == done + [s.text] + rest.value; }
  }

  lemma BlobHeader(size: uint32, count: uint32, rest: seq<byte>)
    ensures var b := LE(size, 4) + LE(count, 4) + rest;
            FromLE(b[..4]) == size && FromLE(b[4..8]) == count && b[8..] == rest
  {
    var b := LE(size, 4) + LE(count, 4) + rest;
    Pow256Values();
    FromLEInvertsLE(size, 4);
    FromLEInvertsLE(count, 4);
    assert b[..4] == LE(size, 4) && b[4..8] == LE(count, 4);
  }

  /** A string array marshalled at its computed size is a self-describing blob that decodes
      to the array it came from. */
  lemma StringArrayRoundTrip(strings: seq<WString>)
    requires ValidStrings(strings) && |strings| < DWORD_RANGE
    requires 8 + |EncodeStrings(strings)| < LIMIT
    ensures var blob := StringArrayBlob(strings, 8 + |EncodeStrings(strings)|);
            Blob(Some(blob)).Valid() && StringArrayOf(blob) == Got(CanonStrings(strings))
  {
    var body := EncodeStrings(strings);
    var size: uint32 := 8 + |body|;
    BlobHeader(size, |strings|, body);
    CheckMemoryMeaning(4, size);
    ReadStringsOfEncoding(strings, []);
    hide LE, FromLE, ReadStrings, CheckMemory, CanonStrings, EncodeStrings, ValidStrings;
    assert body + [] == body;
    var blob := LE(size, 4) + LE(|strings|, 4) + body;
    assert |blob| == size;
  }

  // ---------------------------------------------------------------- which blobs are reprinted

  /** The length field did not wrap and no character is NUL. */
  predicate WholeString(b: seq<byte>, used: nat) {
    8 <= used <= |b| && used == 8 + 2 * FromLE(b[..8]) && 0 !in FromWBytes(b[8..used])
  }

  /** `count` whole elements, and nothing but zeroes behind them. */
  predicate WholeStrings(count: nat, b: seq<byte>)
    requires |b| < DWORD_RANGE
  {
    if count == 0 then b == Zeros(|b|)
    else match ReadString(b, |b|)
      case Got(s) => WholeString(b, s.used) && WholeStrings(count - 1, b[s.used..])
      case _ => true
  }

  /** A whole element is printed as it was read; any other differs in its length field. */
  lemma ReprintString(b: seq<byte>)
    requires |b| < DWORD_RANGE && ReadString(b, |b|).Got?
    ensures var s := ReadString(b, |b|).value;
            && |EncodeString(s.text)| <= s.used
            && (WholeString(b, s.used) ==> EncodeString(s.text) == b[..s.used])
            && (!WholeString(b, s.used) ==> EncodeString(s.text)[..8] != b[..8])
  {
    var s := ReadString(b, |b|).value;
    StringRead(b);
    LEInvertsFromLE(b[..8]);
    hide ReadString, WholeString, LE, FromLE, FromWBytes, WBytes, CString;
    ReprintWide(b, s.used, FromLE(b[..8]), Chars(s.text));
  }

  /** What reading an element says about its characters. */
  lemma StringRead(b: seq<byte>)
    requires |b| < DWORD_RANGE && ReadString(b, |b|).Got?
    ensures var s := ReadString(b, |b|).value;
            && 8 <= s.used <= |b| && s.used % 2 == 0 && s.used - 8 <= 2 * FromLE(b[..8])
            && Chars(s.text) == CString(FromWBytes(b[8..s.used]), 0)
  {
    FromLEBound(b[..8]);
    hide FromLE;
    assert b[8..8] == [];
  }

  lemma ReprintWide(b: seq<byte>, used: nat, n: nat, w: seq<uint16>)
    requires 8 <= used <= |b| < DWORD_RANGE && used % 2 == 0 && used - 8 <= 2 * n
    requires n == FromLE(b[..8]) && b[..8] == LE(n, 8) && w == CString(FromWBytes(b[8..used]), 0)
    ensures var printed := LE(|w|, 8) + WBytes(w);
            && |printed| <= used && printed[..8] == LE(|w|, 8)
            && (WholeString(b, used) ==> printed == b[..used])
            && (!WholeString(b, used) ==> printed[..8] != b[..8])
  {
    var body := b[8..used];
    WBytesInverts(body);
    Pow256Values();
    FromLEInvertsLE(|w|, 8);
    hide LE, FromLE, Pow256, FromWBytes, WBytes, CString;
    var printed := LE(|w|, 8) + WBytes(w);
    assert printed[..8] == LE(|w|, 8);
    if WholeString(b, used) { assert b[..used] == b[..8] + body; }
  }

  /** What the marshaller leaves in a blob of `size` bytes for these elements. */
  function Padded(strings: seq<WString>, size: nat): seq<byte>
    requires |EncodeStrings(strings)| <= size
  {
    EncodeStrings(strings) + Zeros(size - |EncodeStrings(strings)|)
  }

  lemma {:induction false} ReprintStrings(count: nat, b: seq<byte>)
    requires |b| < DWORD_RANGE && ReadStrings(count, b).Got?
    ensures var strings := ReadStrings(count, b).value;
            && |EncodeStrings(strings)| <= |b|
            && (forall i :: 0 <= i < |strings| && strings[i].Some? ==>
                  0 !in strings[i].value && 8 + 2 * |strings[i].value| <= |b|)
            && (Padded(strings, |b|) == b <==> WholeStrings(count, b))
  {
    hide ReadString, WholeString, EncodeString;
    if count == 0 {
      assert [] + Zeros(|b|) == Zeros(|b|);
    } else {
      var s := ReadString(b, |b|).value;
      var tail := b[s.used..];
      var rest := ReadStrings(count - 1, tail).value;
      ReprintString(b);
      ReprintStrings(count - 1, tail);
      assert ([s.text] + rest)[1..] == rest;
      PaddedJoin(s.text, rest, b, s.used, WholeString(b, s.used));
    }
  }

  lemma SplitAt(x: seq<byte>, z: seq<byte>, b: seq<byte>, used: nat, whole: bool)
    requires 8 <= |x| && 8 <= used <= |b|
    requires if whole then x == b[..used] else x[..8] != b[..8]
    ensures x + z == b <==> whole && z == b[used..]
  {
    if whole {
      assert b == x + b[used..] && (x + z)[used..] == z;
    } else {
      assert (x + z)[..8] == x[..8];
    }
  }

  lemma PaddedJoin(s: WString, rest: seq<WString>, b: seq<byte>, used: nat, whole: bool)
    requires 8 <= used <= |b| && |EncodeString(s)| <= used && |EncodeStrings(rest)| <= |b| - used
    requires if whole then EncodeString(s) == b[..used] else EncodeString(s)[..8] != b[..8]
    ensures EncodeStrings([s] + rest) == EncodeString(s) + EncodeStrings(rest)
    ensures Padded([s] + rest, |b|) == b <==> whole && Padded(rest, |b| - used) == b[used..]
  {
    EncodeStringsCons(s, rest);
    hide EncodeString, EncodeStrings, Zeros;
    var x, y := EncodeString(s), EncodeStrings(rest);
    var pad := Zeros(|b| - |x + y|);
    Associates(x, y, pad);
    SplitAt(x, y + pad, b, used, whole);
  }

  lemma EncodeStringsCons(s: WString, rest: seq<WString>)
    ensures EncodeStrings([s] + rest) == EncodeString(s) + EncodeStrings(rest)
  {
    hide EncodeString;
    assert ([s] + rest)[1..] == rest;
  }

  lemma Associates(x: seq<byte>, y: seq<byte>, z: seq<byte>)
    ensures x + y + z == x + (y + z)
  {
  }

  lemma SameHead(head: seq<byte>, x: seq<byte>, y: seq<byte>)
    ensures head + x == head + y <==> x == y
  {
    assert (head + x)[|head|..] == x && (head + y)[|head|..] == y;
  }

  /** For every blob that decodes: the marshaller accepts the decoded array at the same size and
      prints the blob again exactly when its elements are whole and only zeroes follow them. */
  lemma StringArrayReprints(blob: seq<byte>)
    requires |blob| < DWORD_RANGE && StringArrayOf(blob).Got?
    ensures var strings := StringArrayOf(blob).value;
            && |strings| < DWORD_RANGE && ValidStrings(strings)
            && 8 + |EncodeStrings(strings)| <= |blob| < LIMIT + 4
            && (StringArrayBlob(strings, |blob|) + Zeros(|blob| - 8 - |EncodeStrings(strings)|) == blob <==>
                WholeStrings(|strings|, blob[8..]))
  {
    var count, body := FromLE(blob[4..8]), blob[8..];
    var head := LE(|blob|, 4) + LE(count, 4);
    FromLEBound(blob[4..8]);
    Pow256Values();
    ReprintStrings(count, body);
    BlobParts(blob);
    CheckMemoryMeaning(4, |blob|);
    hide LE, FromLE, Pow256, ReadStrings, WholeStrings, EncodeStrings, Zeros;
    var strings := ReadStrings(count, body).value;
    var x := EncodeStrings(strings);
    Associates(head, x, Zeros(|body| - |x|));
    SameHead(head, Padded(strings, |body|), body);
  }

  lemma BlobParts(blob: seq<byte>)
    requires 8 <= |blob| < DWORD_RANGE && FromLE(blob[..4]) == |blob|
    ensures blob == LE(|blob|, 4) + LE(FromLE(blob[4..8]), 4) + blob[8..]
  {
    LEInvertsFromLE(blob[..4]);
    LEInvertsFromLE(blob[4..8]);
    hide LE, FromLE;
    assert blob == blob[..4] + blob[4..8] + blob[8..];
  }

  // ---------------------------------------------------------------- containers

  /** VMDIR_IPC_DATA_CONTAINER: a count and that many bytes, or NULL. */
  datatype Container = Container(count: uint32, data: Option<seq<byte>>)

  predicate ValidContainer(c: Container) {
    c.data.Some? ==> |c.data.value| == c.count
  }

  function Zeros(n: nat): seq<byte> {
    seq(n, _ => 0)
  }

  /** VmDirMarshalContainer in a blob of `size` bytes; NULL data leaves zeroes. */
  function MarshalContainer(c: Container, size: uint32): (r: Read<seq<byte>>)
    requires ValidContainer(c)
    ensures r.Got? ==> |r.value| == size
  {
    if size < 8 then Refused(NotEnoughMemory)
    else if c.count == 0 || c.data == None then Got(LE(size, 4) + LE(c.count, 4) + Zeros(size - 8))
    else if c.count > size - 8 then Refused(InvalidParameter)
    else Got(LE(size, 4) + LE(c.count, 4) + (c.data.value + Zeros(size - 8 - c.count)))
  }

  function UnMarshalContainer(blob: seq<byte>): Read<Container>
    requires |blob| < DWORD_RANGE
  {
    if |blob| < 8 || FromLE(blob[..4]) != |blob| then Refused(InvalidParameter)
    else
      FromLEBound(blob[4..8]); Pow256Values();
      var count := FromLE(blob[4..8]);
      if count < 1 then Refused(InvalidParameter)
      else if count > |blob| - 8 then Beyond
      else Got(Container(count, Some(blob[8..8 + count])))
  }

  /** A container marshalled at its computed size comes back exactly when it holds data, and
      then its blob is self-describing. */
  lemma ContainerRoundTrip(c: Container)
    requires ValidContainer(c) && c.count + 8 < LIMIT
    ensures MarshalContainer(c, c.count + 8).Got?
    ensures var blob := MarshalContainer(c, c.count + 8).value;
            && Blob(Some(blob)).Valid()
            && (UnMarshalContainer(blob) == Got(c) <==> c.count >= 1 && c.data.Some?)
  {
    var blob := MarshalContainer(c, c.count + 8).value;
    var body := if c.count == 0 || c.data == None then Zeros(c.count) else c.data.value + Zeros(0);
    assert blob == LE(c.count + 8, 4) + LE(c.count, 4) + body;
    BlobHeader(c.count + 8, c.count, body);
    hide LE, FromLE;
    assert blob[8..8 + c.count] == body;
    if c.count >= 1 && c.data.Some? { assert body == c.data.value; }
  }

  /** A blob is refused exactly when it is too short for its two fields, does not start with its
      own length or counts no bytes; otherwise the count is read past the end exactly when it
      exceeds the rest. */
  lemma ContainerRefused(blob: seq<byte>)
    requires |blob| < DWORD_RANGE
    ensures UnMarshalContainer(blob).Refused? <==> |blob| < 8 || blob[..4] != LE(|blob|, 4) || blob[4..8] == LE(0, 4)
    ensures UnMarshalContainer(blob) == Beyond ==> FromLE(blob[4..8]) > |blob| - 8
  {
    if |blob| >= 8 {
      FieldBytes(|blob|, blob[..4]);
      FieldBytes(0, blob[4..8]);
      hide LE, FromLE;
    }
  }

  /** A blob that decodes is printed again at its size exactly when only zeroes follow the data. */
  lemma ContainerReprints(blob: seq<byte>)
    requires |blob| < DWORD_RANGE && UnMarshalContainer(blob).Got?
    ensures var c := UnMarshalContainer(blob).value;
            && ValidContainer(c) && c.count + 8 <= |blob| && c.data == Some(blob[8..8 + c.count])
            && (MarshalContainer(c, |blob|) == Got(blob) <==> forall i :: 8 + c.count <= i < |blob| ==> blob[i] == 0)
  {
    var c := UnMarshalContainer(blob).value;
    FieldBytes(|blob|, blob[..4]);
    FieldBytes(c.count, blob[4..8]);
    hide LE, FromLE, Zeros;
    ContainerParts(blob, c.count);
    var zeros := Zeros(|blob| - 8 - c.count);
    SameTails(LE(|blob|, 4) + LE(c.count, 4), blob[8..8 + c.count], blob[8 + c.count..], zeros);
    OnlyZeros(blob, 8 + c.count);
  }

  lemma OnlyZeros(b: seq<byte>, n: nat)
    requires n <= |b|
    ensures b[n..] == Zeros(|b| - n) <==> forall i :: n <= i < |b| ==> b[i] == 0
  {
    if b[n..] == Zeros(|b| - n) {
      assert forall i :: n <= i < |b| ==> b[i] == b[n..][i - n];
    }
  }

  lemma ContainerParts(blob: seq<byte>, count: nat)
    requires count + 8 <= |blob|
    ensures blob == blob[..4] + blob[4..8] + (blob[8..8 + count] + blob[8 + count..])
  {
  }

  lemma SameTails(head: seq<byte>, data: seq<byte>, rest: seq<byte>, other: seq<byte>)
    requires |rest| == |other|
    ensures head + (data + other) == head + (data + rest) <==> rest == other
  {
    var s, t := head + (data + other), head + (data + rest);
    assert s[|head| + |data|..] == other && t[|head| + |data|..] == rest;
  }

  // ---------------------------------------------------------------- composition

  /** A nested blob survives as one argument among others: the receiver finds it at its
      position and the following BLOB_SIZE argument holds its length. */
  lemma BlobSurvives(api: uint32, version: uint32, before: seq<Arg>, blob: seq<byte>, after: seq<Arg>, tail: seq<byte>)
    requires Blob(Some(blob)).Valid()
    requires AllValid(before) && AllSupported(before) && AllValid(after) && AllSupported(after)
    requires |before| + 1 + |after| < DWORD_RANGE
    ensures var args := before + [Blob(Some(blob))] + after;
            var r := Decode(api, version, Tags(args), Encode(api, version, args) + tail);
            && r.Parsed? && |r.value| == |args| && r.value[|before|] == Blob(Some(blob))
            && (after != [] && after[0].BlobSize? ==> r.value[|before| + 1] == BlobSize(Some(|blob|)))
  {
    var args := before + [Blob(Some(blob))] + after;
    assert AllValid(args) && AllSupported(args);
    RoundTrip(api, version, args, tail);
    hide Decode, Encode, Tags;
    CanonicalBlob(before, blob, after);
  }

  lemma CanonicalBlob(before: seq<Arg>, blob: seq<byte>, after: seq<Arg>)
    requires Blob(Some(blob)).Valid() && AllValid(before) && AllValid(after)
    ensures var args := before + [Blob(Some(blob))] + after;
            && AllValid(args) && Canonical(args, 0)[|before|] == Blob(Some(blob))
            && (after != [] && after[0].BlobSize? ==> Canonical(args, 0)[|before| + 1] == BlobSize(Some(|blob|)))
  {
    var args := before + [Blob(Some(blob))] + after;
    assert AllValid(args);
    hide Arg.Valid;
    var rest := [Blob(Some(blob))] + after;
    assert args == before + rest && AllValid(rest);
    CanonicalAt(before, rest, 0);
    assert rest[1..] == after;
  }

  function CarriedSize(args: seq<Arg>, blobSize: uint32): uint32
    requires AllValid(args)
  {
    if args == [] then blobSize else CarriedSize(args[1..], Canon(args[0], blobSize).blobSize)
  }

  lemma {:induction false} CanonicalAt(x: seq<Arg>, y: seq<Arg>, blobSize: uint32)
    requires AllValid(x) && AllValid(y) && AllValid(x + y)
    ensures Canonical(x + y, blobSize) == Canonical(x, blobSize) + Canonical(y, CarriedSize(x, blobSize))
  {
    if x == [] {
      assert x + y == y;
    } else {
      assert (x + y)[1..] == x[1..] + y;
      CanonicalAt(x[1..], y, Canon(x[0], blobSize).blobSize);
    }
  }

  /** A string array sent inside a BLOB argument decodes, on the other side, to itself. */
  lemma StringArrayThroughMessage(api: uint32, version: uint32, before: seq<Arg>, strings: seq<WString>,
                                  after: seq<Arg>, tail: seq<byte>)
    requires ValidStrings(strings) && |strings| < DWORD_RANGE && 8 + |EncodeStrings(strings)| < LIMIT
    requires AllValid(before) && AllSupported(before) && AllValid(after) && AllSupported(after)
    requires |before| + 1 + |after| < DWORD_RANGE
    ensures var args := before + [Blob(Some(StringArrayBlob(strings, 8 + |EncodeStrings(strings)|)))] + after;
            var r := Decode(api, version, Tags(args), Encode(api, version, args) + tail);
            && r.Parsed? && |r.value| == |args| && r.value[|before|].Blob? && r.value[|before|].b.Some?
            && |r.value[|before|].b.value| < DWORD_RANGE
            && StringArrayOf(r.value[|before|].b.value) == Got(CanonStrings(strings))
  {
    StringArrayRoundTrip(strings);
    BlobSurvives(api, version, before, StringArrayBlob(strings, 8 + |EncodeStrings(strings)|), after, tail);
  }

  /** A container sent as a blob argument among any others arrives as it was exactly when it has
      data and a count of at least one. */
  lemma ContainerThroughMessage(api: uint32, version: uint32, before: seq<Arg>, c: Container,
                                after: seq<Arg>, tail: seq<byte>)
    requires ValidContainer(c) && c.count + 8 < LIMIT
    requires AllValid(before) && AllSupported(before) && AllValid(after) && AllSupported(after)
    requires |before| + 1 + |after| < DWORD_RANGE
    ensures MarshalContainer(c, c.count + 8).Got?
    ensures var args := before + [Blob(Some(MarshalContainer(c, c.count + 8).value))] + after;
            var r := Decode(api, version, Tags(args), Encode(api, version, args) + tail);
            && r.Parsed? && |r.value| == |args| && r.value[|before|].Blob? && r.value[|before|].b.Some?
            && |r.value[|before|].b.value| < DWORD_RANGE
            && (UnMarshalContainer(r.value[|before|].b.value) == Got(c) <==> c.count >= 1 && c.data.Some?)
  {
    ContainerRoundTrip(c);
    hide MarshalContainer, UnMarshalContainer;
    BlobSurvives(api, version, before, MarshalContainer(c, c.count + 8).value, after, tail);
  }
}
