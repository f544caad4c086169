/** The IPC wire format of lwraft/common/marshalutil.c as functions: what the marshaller
    prints for an argument list and what the unmarshaller reads back. */
module Wire {
  import opened Bytes

  const TAG_BOOL: uint32 := 1
  const TAG_BOOLEAN: uint32 := 2
  const TAG_UINT32: uint32 := 5
  const TAG_STRING: uint32 := 9
  const TAG_WSTRING: uint32 := 10
  const TAG_BLOB_SIZE: uint32 := 11
  const TAG_BLOB: uint32 := 12

  const LIMIT: nat := 0x8000_0000

  /** VMW_TYPE_SPEC: a type tag and a data pointer that may be NULL. `Unsupported` stands
      for the tags that fall into the `default:` branches. */
  datatype Arg =
    | Uint32(u: Option<uint32>)
    | Str(s: Option<seq<byte>>)
    | WStr(w: Option<seq<uint16>>)
    | Blob(b: Option<seq<byte>>)
    | BlobSize(n: Option<uint32>)
    | Bool(v: Option<uint32>)
    | Boolean(y: Option<byte>)
    | Unsupported(tag: uint32)
  {
    function Tag(): uint32 {
      match this
      case Uint32(_) => TAG_UINT32
      case Str(_) => TAG_STRING
      case WStr(_) => TAG_WSTRING
      case Blob(_) => TAG_BLOB
      case BlobSize(_) => TAG_BLOB_SIZE
      case Bool(_) => TAG_BOOL
      case Boolean(_) => TAG_BOOLEAN
      case Unsupported(t) => t
    }

    /** What the C types promise about an argument: strings are NUL-terminated, a blob
        starts with its own length, and one field never reaches 2 GiB. */
    predicate Valid() {
      match this
      case Str(Some(s)) => 0 !in s && |s| < LIMIT
      case WStr(Some(w)) => 0 !in w && 2 * |w| < LIMIT
      case Blob(Some(b)) => 4 <= |b| < LIMIT && FromLE(b[..4]) == |b|
      case Unsupported(t) => !KnownTag(t)
      case _ => true
    }
  }

  predicate KnownTag(t: uint32) {
    t in {TAG_BOOL, TAG_BOOLEAN, TAG_UINT32, TAG_STRING, TAG_WSTRING, TAG_BLOB_SIZE, TAG_BLOB}
  }

  predicate AllValid(args: seq<Arg>) {
    forall i :: 0 <= i < |args| ==> args[i].Valid()
  }

  predicate AllSupported(args: seq<Arg>) {
    forall i :: 0 <= i < |args| ==> !args[i].Unsupported?
  }

  function Tags(args: seq<Arg>): (ts: seq<uint32>)
    ensures |ts| == |args|
    ensures forall i :: 0 <= i < |args| ==> ts[i] == args[i].Tag()
  {
    seq(|args|, i requires 0 <= i < |args| => args[i].Tag())
  }

  // ---------------------------------------------------------------- printing

  /** The bytes that follow the tag of an argument; a NULL scalar leaves the zeroes of the
      freshly allocated buffer, a NULL string is a zero length, a NULL blob the number 4. */
  function Payload(a: Arg): seq<byte> {
    match a
    case Uint32(u) => LE(if u.Some? then u.value else 0, 4)
    case Str(s) => if s.Some? then LE(|s.value|, 8) + s.value else LE(0, 8)
    case WStr(w) => if w.Some? then LE(|w.value|, 8) + WBytes(w.value) else LE(0, 8)
    case Blob(b) => if b.Some? then b.value else LE(4, 4)
    case BlobSize(_) => []
    case Bool(v) => LE(if v.Some? then v.value else 0, 4)
    case Boolean(y) => [if y.Some? then y.value else 0]
    case Unsupported(_) => []
  }

  function EncodeArg(a: Arg): seq<byte> {
    LE(a.Tag(), 4) + Payload(a)
  }

  function EncodeArgs(args: seq<Arg>): seq<byte> {
    if args == [] then [] else EncodeArg(args[0]) + EncodeArgs(args[1..])
  }

  function Header(api: uint32, version: uint32, count: uint32): (h: seq<byte>)
    ensures |h| == 12
  {
    LE(api, 4) + LE(version, 4) + LE(count, 4)
  }

  function Encode(api: uint32, version: uint32, args: seq<Arg>): seq<byte>
    requires |args| < 0x1_0000_0000
  {
    Header(api, version, |args|) + EncodeArgs(args)
  }

  // ---------------------------------------------------------------- reading

  /** `Invalid` is ERROR_INVALID_PARAMETER. `Overrun` marks the runs in which the C code
      would read past the end of the message, where its behaviour is undefined. `used` is how
      far the cursor moved, which for a last string may be beyond the end. */
  datatype Parse<+T> = Parsed(value: T, used: nat) | Invalid | Overrun

  /** One decoded argument and the carried `dwBlobSize`. */
  datatype Step = Step(arg: Arg, blobSize: uint32)

  /** The string a C reader sees: everything before the first NUL. */
  function CString<T(==)>(b: seq<T>, nul: T): (s: seq<T>)
    ensures nul !in s && |s| <= |b|
    ensures nul !in b ==> s == b
    ensures nul in b ==> |s| < |b|
  {
    if b == [] || b[0] == nul then [] else [b[0]] + CString(b[1..], nul)
  }

  function Front(b: seq<byte>, n: nat): (f: seq<byte>)
    ensures |f| <= n && |f| <= |b|
  {
    if n <= |b| then b[..n] else b
  }

  /** What is left behind a cursor that moved `n` bytes. */
  function Behind(b: seq<byte>, n: nat): (r: seq<byte>)
    ensures n <= |b| ==> |r| == |b| - n
  {
    if n <= |b| then b[n..] else []
  }

  /** The 64-bit size of a wide string of `n` characters. */
  function WideSize(n: uint64): (size: uint64)
    ensures size % 2 == 0
  {
    if 2 * n < WORD then 2 * n else 2 * n - WORD
  }

  function ReadUint(b: seq<byte>, n: nat): (r: Parse<nat>)
    ensures r.Parsed? ==> r.used == n <= |b| && r.value < Pow256(n)
    ensures !r.Invalid?
  {
    if |b| < n then Overrun else
      FromLEBound(b[..n]);
      Parsed(FromLE(b[..n]), n)
  }

  /** A narrow string is copied up to its first NUL, so a length beyond the end is harmless when
      a NUL comes first. Buffer sizes are computed in 64 bits and a size of zero is refused. */
  function DecodePayload(tag: uint32, b: seq<byte>, blobSize: uint32): (r: Parse<Step>)
    ensures r.Parsed? ==> r.value.arg.Tag() == tag && (tag != TAG_STRING ==> r.used <= |b|)
  {
    Pow256Values();
    if tag == TAG_UINT32 then
      var v := ReadUint(b, 4);
      if !v.Parsed? then Overrun else Parsed(Step(Uint32(Some(v.value)), blobSize), 4)
    else if tag == TAG_STRING then
      var v := ReadUint(b, 8);
      if !v.Parsed? then Overrun
      else if v.value == 0 then Parsed(Step(Str(None), blobSize), 8)
      else if v.value + 1 == WORD then Invalid
      else if |b| - 8 < v.value && 0 !in b[8..] then Overrun
      else Parsed(Step(Str(Some(CString(Front(b[8..], v.value), 0))), blobSize), 8 + v.value)
    else if tag == TAG_WSTRING then
      var v := ReadUint(b, 8);
      if !v.Parsed? then Overrun
      else if v.value == 0 then Parsed(Step(WStr(None), blobSize), 8)
      else
        var size := WideSize(v.value);
        if size + 2 == WORD then Invalid
        else if |b| - 8 < size then Overrun
        else Parsed(Step(WStr(Some(CString(FromWBytes(b[8..8 + size]), 0))), blobSize), 8 + size)
    else if tag == TAG_BLOB then
      var v := ReadUint(b, 4);
      if !v.Parsed? then Overrun
      else if v.value == 0 then Invalid
      else if |b| < v.value then Overrun
      else Parsed(Step(Blob(Some(b[..v.value])), v.value), v.value)
    else if tag == TAG_BLOB_SIZE then
      Parsed(Step(BlobSize(Some(blobSize)), 0), 0)
    else if tag == TAG_BOOL then
      var v := ReadUint(b, 4);
      if !v.Parsed? then Overrun else Parsed(Step(Bool(Some(v.value)), blobSize), 4)
    else if tag == TAG_BOOLEAN then
      if b == [] then Overrun else Parsed(Step(Boolean(Some(b[0])), blobSize), 1)
    else Invalid
  }

  function DecodeArg(tag: uint32, b: seq<byte>, blobSize: uint32): (r: Parse<Step>)
    ensures r.Parsed? ==> 4 <= r.used && 4 <= |b| && r.value.arg.Tag() == tag && (tag != TAG_STRING ==> r.used <= |b|)
  {
    Pow256Values();
    var t := ReadUint(b, 4);
    if !t.Parsed? then Overrun
    else if t.value != tag then Invalid
    else
      var p := DecodePayload(tag, b[4..], blobSize);
      if p.Parsed? then Parsed(p.value, 4 + p.used) else p
  }

  function DecodeArgs(tags: seq<uint32>, b: seq<byte>, blobSize: uint32): (r: Parse<seq<Arg>>)
    ensures r.Parsed? ==> Tags(r.value) == tags
  {
    if tags == [] then Parsed([], 0) else
      var first := DecodeArg(tags[0], b, blobSize);
      match first
      case Invalid => Invalid
      case Overrun => Overrun
      case Parsed(step, n) =>
        var rest := DecodeArgs(tags[1..], Behind(b, n), step.blobSize);
        if rest.Parsed? then
          assert tags == [tags[0]] + tags[1..];
          Parsed([step.arg] + rest.value, n + rest.used)
        else rest
  }

  function Decode(api: uint32, version: uint32, tags: seq<uint32>, b: seq<byte>): (r: Parse<seq<Arg>>)
  {
    if |b| < 12 then Overrun
    else if FromLE(b[..4]) != api || FromLE(b[4..8]) != version || FromLE(b[8..12]) != |tags| then Invalid
    else
      var r := DecodeArgs(tags, b[12..], 0);
      if r.Parsed? then Parsed(r.value, 12 + r.used) else r
  }

  // ---------------------------------------------------------------- round trip

  /** What an argument becomes on the other side: NULL scalars are zero, empty strings are
      NULL, a NULL blob is the four bytes of the number 4, and a BLOB_SIZE argument holds the
      size of the last blob that no earlier BLOB_SIZE reported. */
  function Canon(a: Arg, blobSize: uint32): Step
    requires a.Valid()
  {
    match a
    case Uint32(u) => Step(Uint32(Some(if u.Some? then u.value else 0)), blobSize)
    case Str(s) => Step(Str(if s.Some? && s.value != [] then s else None), blobSize)
    case WStr(w) => Step(WStr(if w.Some? && w.value != [] then w else None), blobSize)
    case Blob(b) => if b.Some? then Step(a, |b.value|) else Step(Blob(Some(LE(4, 4))), 4)
    case BlobSize(_) => Step(BlobSize(Some(blobSize)), 0)
    case Bool(v) => Step(Bool(Some(if v.Some? then v.value else 0)), blobSize)
    case Boolean(y) => Step(Boolean(Some(if y.Some? then y.value else 0)), blobSize)
    case Unsupported(_) => Step(a, blobSize)
  }

  function Canonical(args: seq<Arg>, blobSize: uint32): (r: seq<Arg>)
    requires AllValid(args)
    ensures |r| == |args|
  {
    if args == [] then [] else
      var c := Canon(args[0], blobSize);
      [c.arg] + Canonical(args[1..], c.blobSize)
  }

  /** A length field and the text behind it are read back from the front of a payload. */
  lemma ReadText(n: nat, body: seq<byte>, tail: seq<byte>)
    requires n < Pow256(8)
    ensures var b := LE(n, 8) + body + tail;
            ReadUint(b, 8) == Parsed(n, 8) && b[8..8 + |body|] == body && Front(b[8..], |body|) == body
  {
    assert LE(n, 8) + body + tail == LE(n, 8) + (body + tail);
    ReadStored(n, 8, body + tail);
    assert (body + tail)[..|body|] == body;
  }

  lemma DecodeStrPayload(s: seq<byte>, tail: seq<byte>, blobSize: uint32)
    requires Str(Some(s)).Valid()
    ensures DecodePayload(TAG_STRING, LE(|s|, 8) + s + tail, blobSize)
         == Parsed(Canon(Str(Some(s)), blobSize), 8 + |s|)
  {
    Pow256Values();
    hide LE, FromLE, Pow256, Front, CString, ReadUint;
    ReadText(|s|, s, tail);
  }

  lemma DecodeWStrPayload(w: seq<uint16>, body: seq<byte>, tail: seq<byte>, blobSize: uint32)
    requires WStr(Some(w)).Valid()
    requires |body| == 2 * |w| && FromWBytes(body) == w
    ensures DecodePayload(TAG_WSTRING, LE(|w|, 8) + body + tail, blobSize)
         == Parsed(Canon(WStr(Some(w)), blobSize), 8 + 2 * |w|)
  {
    Pow256Values();
    hide LE, FromLE, Pow256, CString, ReadUint, FromWBytes;
    ReadText(|w|, body, tail);
  }

  lemma DecodePayloadOfEncoding(a: Arg, tail: seq<byte>, blobSize: uint32)
    requires a.Valid() && !a.Unsupported?
    ensures DecodePayload(a.Tag(), Payload(a) + tail, blobSize)
         == Parsed(Canon(a, blobSize), |Payload(a)|)
  {
    Pow256Values();
    var b := Payload(a) + tail;
    match a
    case Uint32(u) => ReadStored(if u.Some? then u.value else 0, 4, tail);
    case Str(s) =>
      if s.Some? { DecodeStrPayload(s.value, tail, blobSize); } else { ReadStored(0, 8, tail); }
    case WStr(w) =>
      if w.Some? {
        FromWBytesInverts(w.value);
        DecodeWStrPayload(w.value, WBytes(w.value), tail, blobSize);
      } else { ReadStored(0, 8, tail); }
    case Blob(bl) =>
      if bl.Some? {
        assert b[..4] == bl.value[..4] && b[..|bl.value|] == bl.value;
      } else {
        ReadStored(4, 4, tail);
        assert b[..4] == LE(4, 4);
      }
    case BlobSize(_) =>
    case Bool(v) => ReadStored(if v.Some? then v.value else 0, 4, tail);
    case Boolean(y) =>
  }

  lemma DecodeArgOfEncoding(a: Arg, tail: seq<byte>, blobSize: uint32)
    requires a.Valid() && !a.Unsupported?
    ensures DecodeArg(a.Tag(), EncodeArg(a) + tail, blobSize)
         == Parsed(Canon(a, blobSize), |EncodeArg(a)|)
  {
    Pow256Values();
    assert EncodeArg(a) + tail == LE(a.Tag(), 4) + (Payload(a) + tail);
    ReadStored(a.Tag(), 4, Payload(a) + tail);
    DecodePayloadOfEncoding(a, tail, blobSize);
  }

  lemma {:induction false} DecodeArgsOfEncoding(args: seq<Arg>, tail: seq<byte>, blobSize: uint32)
    requires AllValid(args) && AllSupported(args)
    ensures DecodeArgs(Tags(args), EncodeArgs(args) + tail, blobSize)
         == Parsed(Canonical(args, blobSize), |EncodeArgs(args)|)
  {
    if args != [] {
      var rest := EncodeArgs(args[1..]) + tail;
      assert EncodeArgs(args) + tail == EncodeArg(args[0]) + rest;
      DecodeArgOfEncoding(args[0], rest, blobSize);
      assert (EncodeArg(args[0]) + rest)[|EncodeArg(args[0])|..] == rest;
      assert Tags(args)[1..] == Tags(args[1..]);
      DecodeArgsOfEncoding(args[1..], tail, Canon(args[0], blobSize).blobSize);
    }
  }

  lemma ReadHeader(api: uint32, version: uint32, count: uint32, rest: seq<byte>)
    ensures var b := Header(api, version, count) + rest;
            FromLE(b[..4]) == api && FromLE(b[4..8]) == version && FromLE(b[8..12]) == count
            && b[12..] == rest
  {
    var b := Header(api, version, count) + rest;
    Pow256Values();
    FromLEInvertsLE(api, 4);
    FromLEInvertsLE(version, 4);
    FromLEInvertsLE(count, 4);
    assert b[..4] == LE(api, 4) && b[4..8] == LE(version, 4) && b[8..12] == LE(count, 4);
  }

  /** The unmarshaller inverts the marshaller on every supported argument list, whatever
      follows the message in the buffer, and consumes exactly the printed bytes. */
  lemma RoundTrip(api: uint32, version: uint32, args: seq<Arg>, tail: seq<byte>)
    requires |args| < 0x1_0000_0000
    requires AllValid(args) && AllSupported(args)
    ensures Decode(api, version, Tags(args), Encode(api, version, args) + tail)
         == Parsed(Canonical(args, 0), |Encode(api, version, args)|)
  {
    var rest := EncodeArgs(args) + tail;
    assert Encode(api, version, args) + tail == Header(api, version, |args|) + rest;
    ReadHeader(api, version, |args|, rest);
    DecodeArgsOfEncoding(args, tail, 0);
  }

  /** Two messages of the same shape that start a buffer alike carry the same arguments. */
  lemma EncodingIsUnambiguous(api: uint32, version: uint32, x: seq<Arg>, y: seq<Arg>,
                              xTail: seq<byte>, yTail: seq<byte>)
    requires |x| < 0x1_0000_0000 && |y| < 0x1_0000_0000
    requires AllValid(x) && AllSupported(x) && AllValid(y) && AllSupported(y)
    requires Tags(x) == Tags(y)
    requires Encode(api, version, x) + xTail == Encode(api, version, y) + yTail
    ensures Canonical(x, 0) == Canonical(y, 0) && xTail == yTail
  {
    RoundTrip(api, version, x, xTail);
    RoundTrip(api, version, y, yTail);
    var b := Encode(api, version, x) + xTail;
    assert xTail == b[|Encode(api, version, x)|..];
    assert yTail == (Encode(api, version, y) + yTail)[|Encode(api, version, y)|..];
  }

  // ---------------------------------------------------------------- converse

  /** The payload lies inside the message, its string is not cut short by a NUL, a wide length
      did not wrap, a blob covers its own length field, and the field is below 2 GiB. */
  predicate WholePayload(tag: uint32, p: seq<byte>, used: nat) {
    && used <= |p|
    && (tag == TAG_STRING ==> 8 <= used < LIMIT + 8 && 0 !in p[8..used])
    && (tag == TAG_WSTRING ==>
          8 <= used < LIMIT + 8 && used == 8 + 2 * FromLE(p[..8]) && 0 !in FromWBytes(p[8..used]))
    && (tag == TAG_BLOB ==> 4 <= used < LIMIT)
  }

  /** Every payload met while decoding is whole. */
  predicate Whole(tags: seq<uint32>, b: seq<byte>, blobSize: uint32) {
    tags == [] ||
    match DecodeArg(tags[0], b, blobSize)
    case Parsed(step, n) => WholeArg(tags[0], b, n) && Whole(tags[1..], Behind(b, n), step.blobSize)
    case _ => true
  }

  predicate WholeArg(tag: uint32, b: seq<byte>, used: nat) {
    4 <= used && 4 <= |b| && WholePayload(tag, b[4..], used - 4)
  }

  /** The first `n` bytes of a message are `x`. */
  predicate Prints(x: seq<byte>, b: seq<byte>, n: nat) {
    n <= |b| && x == b[..n]
  }

  /** The marshaller accepts the argument and prints the bytes it was read from. */
  predicate Reprints(a: Arg, p: seq<byte>, used: nat) {
    a.Valid() && Prints(Payload(a), p, used)
  }

  lemma ReencodeStr(p: seq<byte>, blobSize: uint32)
    requires DecodePayload(TAG_STRING, p, blobSize).Parsed?
    ensures var r := DecodePayload(TAG_STRING, p, blobSize);
            |Payload(r.value.arg)| <= r.used && (Reprints(r.value.arg, p, r.used) <==> WholePayload(TAG_STRING, p, r.used))
  {
    var r := DecodePayload(TAG_STRING, p, blobSize);
    LEInvertsFromLE(p[..8]);
    if r.used <= |p| {
      assert p[8..r.used] == Front(p[8..], r.used - 8);
      assert p[..r.used] == p[..8] + p[8..r.used];
    }
  }

  lemma ReencodeWStr(p: seq<byte>, blobSize: uint32)
    requires DecodePayload(TAG_WSTRING, p, blobSize).Parsed?
    ensures var r := DecodePayload(TAG_WSTRING, p, blobSize);
            |Payload(r.value.arg)| <= r.used && (Reprints(r.value.arg, p, r.used) <==> WholePayload(TAG_WSTRING, p, r.used))
  {
    var n := FromLE(p[..8]);
    LEInvertsFromLE(p[..8]);
    FromLEBound(p[..8]);
    Pow256Values();
    hide LE, FromLE, Pow256, FromWBytes, WBytes, CString;
    if n == 0 {
      assert p[8..8] == [] && FromWBytes([]) == [];
    } else {
      WideReprints(p, n, WideSize(n));
    }
  }

  lemma WideReprints(p: seq<byte>, n: uint64, size: uint64)
    requires |p| >= 8 && n == FromLE(p[..8]) && p[..8] == LE(n, 8) && size % 2 == 0 && 8 + size <= |p|
    requires size == 2 * n || size < 2 * n
    ensures var a := WStr(Some(CString(FromWBytes(p[8..8 + size]), 0)));
            |Payload(a)| <= 8 + size && (Reprints(a, p, 8 + size) <==> WholePayload(TAG_WSTRING, p, 8 + size))
  {
    var body := p[8..8 + size];
    var all := FromWBytes(body);
    var w := CString(all, 0);
    var printed := LE(|w|, 8) + WBytes(w);
    WBytesInverts(body);
    Pow256Values();
    FromLEInvertsLE(|w|, 8);
    hide LE, FromLE, Pow256, FromWBytes, WBytes, CString;
    assert p[..8 + size] == p[..8] + body;
    if 0 in all {
      assert |printed| < 8 + size;
    } else if size < 2 * n {
      assert printed[..8] == LE(|w|, 8) && p[..8 + size][..8] == p[..8];
    } else {
      assert printed == p[..8 + size];
    }
  }

  lemma ReencodePayload(tag: uint32, p: seq<byte>, blobSize: uint32)
    requires DecodePayload(tag, p, blobSize).Parsed?
    ensures var r := DecodePayload(tag, p, blobSize);
            |Payload(r.value.arg)| <= r.used && (Reprints(r.value.arg, p, r.used) <==> WholePayload(tag, p, r.used))
  {
    Pow256Values();
    if tag == TAG_STRING {
      ReencodeStr(p, blobSize);
    } else if tag == TAG_WSTRING {
      ReencodeWStr(p, blobSize);
    } else if tag == TAG_BLOB {
      var r := DecodePayload(tag, p, blobSize);
      if r.used >= 4 { assert p[..r.used][..4] == p[..4]; }
    } else if tag == TAG_UINT32 || tag == TAG_BOOL {
      LEInvertsFromLE(p[..4]);
    }
  }

  lemma ReencodeArg(tag: uint32, b: seq<byte>, blobSize: uint32)
    requires DecodeArg(tag, b, blobSize).Parsed?
    ensures var r := DecodeArg(tag, b, blobSize);
            && |EncodeArg(r.value.arg)| <= r.used
            && (r.value.arg.Valid() && Prints(EncodeArg(r.value.arg), b, r.used) <==> WholeArg(tag, b, r.used))
  {
    var r := DecodeArg(tag, b, blobSize);
    ReencodePayload(tag, b[4..], blobSize);
    LEInvertsFromLE(b[..4]);
    TagPrints(b, Payload(r.value.arg), r.used);
    hide Payload, WholePayload, DecodePayload, LE, FromLE, Arg.Valid, Prints;
  }

  lemma TagPrints(b: seq<byte>, x: seq<byte>, n: nat)
    requires 4 <= |b| && 4 <= n
    ensures Prints(b[..4] + x, b, n) <==> Prints(x, b[4..], n - 4)
  {
    if n <= |b| {
      assert b[..n] == b[..4] + b[4..][..n - 4];
      assert (b[..4] + x)[4..] == x && b[..n][4..] == b[4..][..n - 4];
    }
  }

  /** Two parts match the front of a message exactly when each matches its own stretch. */
  lemma SplitMatch(x: seq<byte>, y: seq<byte>, b: seq<byte>, n: nat, m: nat)
    requires |x| <= n && |y| <= m
    ensures Prints(x + y, b, n + m) <==> Prints(x, b, n) && Prints(y, Behind(b, n), m)
  {
    if n + m <= |b| {
      assert b[..n + m] == b[..n] + b[n..][..m];
      if x + y == b[..n + m] {
        assert |x| == n && |y| == m;
        assert x == (x + y)[..n] && y == (x + y)[n..];
        assert b[..n] == b[..n + m][..n] && b[n..][..m] == b[..n + m][n..];
      }
    }
  }

  /** The marshaller accepts the decoded list and prints the bytes it was read from exactly when
      every payload on the wire was whole. */
  lemma {:induction false} ReencodeArgs(tags: seq<uint32>, b: seq<byte>, blobSize: uint32)
    requires DecodeArgs(tags, b, blobSize).Parsed?
    ensures var r := DecodeArgs(tags, b, blobSize);
            && |EncodeArgs(r.value)| <= r.used
            && (AllValid(r.value) && Prints(EncodeArgs(r.value), b, r.used) <==> Whole(tags, b, blobSize))
  {
    if tags == [] {
      assert EncodeArgs([]) == [] && b[..0] == [];
    } else {
      var first := DecodeArg(tags[0], b, blobSize);
      var n := first.used;
      ReencodeArg(tags[0], b, blobSize);
      ReencodeArgs(tags[1..], Behind(b, n), first.value.blobSize);
      Unfolds(tags, b, blobSize);
      hide DecodeArg, DecodeArgs, WholeArg, Whole, EncodeArg, EncodeArgs, AllValid, Behind, Prints, Arg.Valid;
      var rest := DecodeArgs(tags[1..], Behind(b, n), first.value.blobSize);
      JoinReprints(first.value.arg, rest.value, b, n, rest.used);
    }
  }

  lemma Unfolds(tags: seq<uint32>, b: seq<byte>, blobSize: uint32)
    requires tags != [] && DecodeArgs(tags, b, blobSize).Parsed?
    ensures DecodeArg(tags[0], b, blobSize).Parsed?
    ensures var first := DecodeArg(tags[0], b, blobSize);
            var rest := DecodeArgs(tags[1..], Behind(b, first.used), first.value.blobSize);
            && rest.Parsed?
            && DecodeArgs(tags, b, blobSize) == Parsed([first.value.arg] + rest.value, first.used + rest.used)
            && (Whole(tags, b, blobSize) <==> WholeArg(tags[0], b, first.used)
                                              && Whole(tags[1..], Behind(b, first.used), first.value.blobSize))
  {
    hide DecodeArg, WholeArg, Behind;
  }

  /** An argument and the ones behind it reprint together exactly when each part does. */
  lemma JoinReprints(a: Arg, args: seq<Arg>, b: seq<byte>, n: nat, m: nat)
    requires |EncodeArg(a)| <= n && |EncodeArgs(args)| <= m
    ensures |EncodeArgs([a] + args)| <= n + m
    ensures AllValid([a] + args) && Prints(EncodeArgs([a] + args), b, n + m) <==>
            && (a.Valid() && Prints(EncodeArg(a), b, n))
            && (AllValid(args) && Prints(EncodeArgs(args), Behind(b, n), m))
  {
    assert ([a] + args)[1..] == args;
    assert EncodeArgs([a] + args) == EncodeArg(a) + EncodeArgs(args);
    AllValidCons(a, args);
    SplitMatch(EncodeArg(a), EncodeArgs(args), b, n, m);
    hide EncodeArg, EncodeArgs, AllValid, Behind, Prints;
  }

  /** What stands on the wire for each kind of argument: a 4-byte tag, then 4 bytes for a number
      or BOOL, 1 for a BOOLEAN, 8 for the length of a string before its characters, a blob as it
      is, and nothing for a blob size. */
  lemma ArgBytes(a: Arg)
    requires a.Valid()
    ensures match a
            case Uint32(Some(v)) => EncodeArg(a) == [5, 0, 0, 0] + LE(v, 4)
            case Str(Some(s)) => EncodeArg(a) == [9, 0, 0, 0] + (LE(|s|, 8) + s)
            case WStr(Some(w)) => EncodeArg(a) == [10, 0, 0, 0] + (LE(|w|, 8) + WBytes(w))
            case BlobSize(_) => EncodeArg(a) == [11, 0, 0, 0]
            case Blob(Some(b)) => EncodeArg(a) == [12, 0, 0, 0] + b
            case Bool(Some(v)) => EncodeArg(a) == [1, 0, 0, 0] + LE(v, 4)
            case Boolean(Some(y)) => EncodeArg(a) == [2, 0, 0, 0] + [y]
            case Uint32(None) => EncodeArg(a) == [5, 0, 0, 0] + LE(0, 4)
            case Bool(None) => EncodeArg(a) == [1, 0, 0, 0] + LE(0, 4)
            case Boolean(None) => EncodeArg(a) == [2, 0, 0, 0] + [0]
            case Str(None) => EncodeArg(a) == [9, 0, 0, 0] + LE(0, 8)
            case WStr(None) => EncodeArg(a) == [10, 0, 0, 0] + LE(0, 8)
            case Blob(None) => EncodeArg(a) == [12, 0, 0, 0] + LE(4, 4)
            case Unsupported(t) => t !in {1, 2, 5, 9, 10, 11, 12} && EncodeArg(a) == LE(t, 4)
  {
    LEWord(a.Tag());
    hide LE, WBytes;
  }

  /** A message is taken apart only behind its own header: of 12 bytes or more it is refused
      unless they begin with this API, this version and this number of arguments. */
  lemma HeaderDecides(api: uint32, version: uint32, tags: seq<uint32>, b: seq<byte>)
    requires |tags| < 0x1_0000_0000
    ensures var header := LE(api, 4) + LE(version, 4) + LE(|tags|, 4);
            var r := Decode(api, version, tags, b);
            && (|b| < 12 ==> r == Overrun)
            && (|b| >= 12 && b[..12] != header ==> r == Invalid)
            && (r.Parsed? ==> |b| >= 12 && b[..12] == header && r.used >= 12)
            && (|b| >= 12 && b[..12] == header ==>
                  match DecodeArgs(tags, b[12..], 0)
                  case Parsed(args, n) => r == Parsed(args, 12 + n)
                  case Invalid => r == Invalid
                  case Overrun => r == Overrun)
  {
    if |b| >= 12 {
      HeaderBytes(api, version, |tags|, b);
      hide LE, FromLE, DecodeArgs;
    }
  }

  lemma HeaderBytes(api: uint32, version: uint32, count: uint32, b: seq<byte>)
    requires |b| >= 12
    ensures b[..12] == LE(api, 4) + LE(version, 4) + LE(count, 4) <==>
            FromLE(b[..4]) == api && FromLE(b[4..8]) == version && FromLE(b[8..12]) == count
  {
    FieldBytes(api, b[..4]);
    FieldBytes(version, b[4..8]);
    FieldBytes(count, b[8..12]);
    hide LE, FromLE;
    assert b[..12] == b[..4] + b[4..8] + b[8..12];
    SameThree(b[..4], b[4..8], b[8..12], LE(api, 4), LE(version, 4), LE(count, 4));
  }

  lemma FieldBytes(v: uint32, field: seq<byte>)
    requires |field| == 4
    ensures field == LE(v, 4) <==> FromLE(field) == v
  {
    Pow256Values();
    FromLEInvertsLE(v, 4);
    LEInvertsFromLE(field);
    hide LE, FromLE, Pow256;
  }

  lemma SameThree(a: seq<byte>, b: seq<byte>, c: seq<byte>, x: seq<byte>, y: seq<byte>, z: seq<byte>)
    requires |a| == |x| == 4 && |b| == |y| == 4 && |c| == |z| == 4
    ensures a + b + c == x + y + z <==> a == x && b == y && c == z
  {
    assert (a + b + c)[..4] == a && (a + b + c)[4..8] == b && (a + b + c)[8..] == c;
    assert (x + y + z)[..4] == x && (x + y + z)[4..8] == y && (x + y + z)[8..] == z;
  }

  /** The arguments behind one more. */
  function Preceded(a: Arg, n: nat, rest: Parse<seq<Arg>>): Parse<seq<Arg>> {
    match rest
    case Parsed(args, m) => Parsed([a] + args, n + m)
    case _ => rest
  }

  lemma DecodeArgsUnfold(tags: seq<uint32>, b: seq<byte>, blobSize: uint32)
    requires tags != []
    ensures DecodeArgs(tags, b, blobSize) ==
            match DecodeArg(tags[0], b, blobSize)
            case Invalid => Invalid
            case Overrun => Overrun
            case Parsed(step, n) => Preceded(step.arg, n, DecodeArgs(tags[1..], Behind(b, n), step.blobSize))
  {
    hide DecodeArg, Behind, Tags, Arg.Tag;
  }

  /** An argument whose tag on the wire is not the expected one is refused, at any position that
      the parser reaches. */
  lemma {:induction false} WrongTagRefused(tags: seq<uint32>, b: seq<byte>, blobSize: uint32, i: nat)
    requires i < |tags| && DecodeArgs(tags[..i], b, blobSize).Parsed?
    requires TagDiffers(b, DecodeArgs(tags[..i], b, blobSize).used, tags[i])
    ensures DecodeArgs(tags, b, blobSize) == Invalid
    decreases i
  {
    hide DecodeArg, DecodeArgs, Behind, TagDiffers, Tags;
    DecodeArgsUnfold(tags, b, blobSize);
    if i == 0 {
      assert tags[..0] == [];
      NoArgs(b, blobSize);
      WrongFirstTag(tags[0], b, blobSize);
    } else {
      var front := tags[..i];
      assert front[0] == tags[0] && front[1..] == tags[1..][..i - 1] && tags[1..][i - 1] == tags[i];
      DecodeArgsUnfold(front, b, blobSize);
      var first := DecodeArg(tags[0], b, blobSize);
      TagBehind(b, first.used, DecodeArgs(front[1..], Behind(b, first.used), first.value.blobSize).used, tags[i]);
      WrongTagRefused(tags[1..], Behind(b, first.used), first.value.blobSize, i - 1);
    }
  }

  lemma WrongFirstTag(tag: uint32, b: seq<byte>, blobSize: uint32)
    requires TagDiffers(b, 0, tag)
    ensures DecodeArg(tag, b, blobSize) == Invalid
  {
    assert b[0..4] == b[..4];
    FieldBytes(tag, b[..4]);
    hide DecodePayload, LE, FromLE;
  }

  lemma NoArgs(b: seq<byte>, blobSize: uint32)
    ensures DecodeArgs([], b, blobSize) == Parsed([], 0)
  {
  }

  /** The four bytes at offset `n` are there and are not this tag. */
  predicate TagDiffers(b: seq<byte>, n: nat, tag: uint32) {
    n + 4 <= |b| && b[n..n + 4] != LE(tag, 4)
  }

  lemma TagBehind(b: seq<byte>, n: nat, m: nat, tag: uint32)
    requires TagDiffers(b, n + m, tag)
    ensures TagDiffers(Behind(b, n), m, tag)
  {
    assert b[n..][m..m + 4] == b[n + m..n + m + 4];
  }

  lemma EncodeParts(api: uint32, version: uint32, args: seq<Arg>)
    requires |args| < 0x1_0000_0000
    ensures Encode(api, version, args) == Header(api, version, |args|) + EncodeArgs(args)
  {
    hide Header, EncodeArgs;
  }

  /** A message that parses is its header and an argument part that parses. */
  lemma MessageParts(api: uint32, version: uint32, tags: seq<uint32>, b: seq<byte>)
    requires |tags| < 0x1_0000_0000 && Decode(api, version, tags, b).Parsed?
    ensures |b| >= 12 && Prints(Header(api, version, |tags|), b, 12) && Behind(b, 12) == b[12..]
    ensures var args := DecodeArgs(tags, b[12..], 0);
            args.Parsed? && Decode(api, version, tags, b) == Parsed(args.value, 12 + args.used)
  {
    HeaderBytes(api, version, |tags|, b);
    hide DecodeArgs, LE, FromLE;
  }

  /** A message that parses is the encoding of what was read, as far as it was read, exactly when
      every payload was whole. */
  lemma MessageReprints(api: uint32, version: uint32, tags: seq<uint32>, b: seq<byte>)
    requires |tags| < 0x1_0000_0000 && Decode(api, version, tags, b).Parsed?
    ensures var r := Decode(api, version, tags, b);
            && |r.value| == |tags| && |b| >= 12
            && (AllValid(r.value) && Prints(Encode(api, version, r.value), b, r.used) <==> Whole(tags, b[12..], 0))
  {
    MessageParts(api, version, tags, b);
    hide *;
    var args := DecodeArgs(tags, b[12..], 0);
    ReencodeArgs(tags, b[12..], 0);
    EncodeParts(api, version, args.value);
    SplitMatch(Header(api, version, |tags|), EncodeArgs(args.value), b, 12, args.used);
  }

  lemma {:induction false} CStringCut<T>(x: seq<T>, nul: T, y: seq<T>)
    requires nul !in x
    ensures CString(x + [nul] + y, nul) == x
  {
    if x != [] {
      assert (x + [nul] + y)[1..] == x[1..] + [nul] + y;
      CStringCut(x[1..], nul, y);
    }
  }

  /** A wide string with a NUL inside comes back without what follows the NUL. */
  lemma WideNulIsLost(x: seq<uint16>, y: seq<uint16>)
    requires 0 !in x && 2 * |x + [0] + y| < LIMIT
    ensures var w := x + [0] + y;
            var b := LE(TAG_WSTRING, 4) + (LE(|w|, 8) + WBytes(w));
            var r := DecodeArgs([TAG_WSTRING], b, 0);
            r == Parsed([WStr(Some(x))], |b|) && |EncodeArgs(r.value)| < |b|
  {
    var w := x + [0] + y;
    var p := LE(|w|, 8) + WBytes(w);
    var b := LE(TAG_WSTRING, 4) + p;
    Pow256Values();
    hide LE, FromLE, Pow256, CString, ReadUint, FromWBytes, WBytes;
    ReadText(|w|, WBytes(w), []);
    assert p + [] == p;
    FromWBytesInverts(w);
    CStringCut(x, 0, y);
    assert DecodePayload(TAG_WSTRING, p, 0) == Parsed(Step(WStr(Some(x)), 0), |p|);
    ReadTag(TAG_WSTRING, p);
    hide DecodePayload;
    assert DecodeArg(TAG_WSTRING, b, 0) == Parsed(Step(WStr(Some(x)), 0), |b|);
    OneArg(TAG_WSTRING, b, Step(WStr(Some(x)), 0));
  }

  lemma ReadTag(tag: uint32, p: seq<byte>)
    ensures var b := LE(tag, 4) + p; ReadUint(b, 4) == Parsed(tag, 4) && b[4..] == p
  {
    Pow256Values();
    ReadStored(tag, 4, p);
  }

  lemma OneArg(tag: uint32, b: seq<byte>, step: Step)
    requires DecodeArg(tag, b, 0) == Parsed(step, |b|)
    ensures DecodeArgs([tag], b, 0) == Parsed([step.arg], |b|) && EncodeArgs([step.arg]) == EncodeArg(step.arg)
  {
    hide DecodeArg, EncodeArg;
    assert [tag][1..] == [] && [step.arg][1..] == [];
    assert [step.arg] + [] == [step.arg] && EncodeArg(step.arg) + [] == EncodeArg(step.arg);
  }

  lemma AllValidCons(a: Arg, args: seq<Arg>)
    ensures AllValid([a] + args) <==> a.Valid() && AllValid(args)
  {
    var all := [a] + args;
    if AllValid(all) {
      assert all[0] == a;
      assert forall i :: 0 <= i < |args| ==> args[i] == all[i + 1];
    }
  }
}
