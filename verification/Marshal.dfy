/** lwraft/common/marshalutil.c: sizing, marshalling and unmarshalling of IPC messages with
    the cursors, the 32-bit counters and the signed remaining-size test of the C code. */
module Marshal {
  import opened Bytes
  import opened Wire

  const DWORD_RANGE: nat := 0x1_0000_0000

  // ---------------------------------------------------------------- VmDirCheckMemory

  /** Subtracts in size_t, truncates to a signed int and refuses a negative result. */
  function CheckMemory(size: uint64, remaining: uint32): Option<uint32> {
    var difference := (remaining - size) % DWORD_RANGE;
    if difference >= LIMIT then None else Some(difference)
  }

  /** The test means "size <= remaining" exactly when the slack, or the shortfall less one
      modulo 2^32, stays below 2^31; in particular whenever both numbers do. */
  lemma CheckMemoryMeaning(size: uint64, remaining: uint32)
    ensures (CheckMemory(size, remaining).Some? <==> size <= remaining)
       <==> (if size <= remaining then remaining - size < LIMIT
             else (size - remaining - 1) % DWORD_RANGE < LIMIT)
    ensures CheckMemory(size, remaining).Some? && size <= remaining
        ==> CheckMemory(size, remaining).value == remaining - size
    ensures size < LIMIT && remaining < LIMIT ==>
            (CheckMemory(size, remaining).Some? <==> size <= remaining)
  {
    if size > remaining {
      var short := size - remaining;
      ModNegative(short);
    }
  }

  lemma ModNegative(n: int)
    requires n > 0
    ensures (-n) % DWORD_RANGE == DWORD_RANGE - 1 - (n - 1) % DWORD_RANGE
  {
    var q, r := (n - 1) / DWORD_RANGE, (n - 1) % DWORD_RANGE;
    assert -n == DWORD_RANGE * (-q - 1) + (DWORD_RANGE - 1 - r);
    ModUnique(-n, -q - 1, DWORD_RANGE - 1 - r);
  }

  lemma ModUnique(x: int, q: int, r: nat)
    requires r < DWORD_RANGE && x == DWORD_RANGE * q + r
    ensures x % DWORD_RANGE == r
  {
  }

  lemma ModAdd(a: nat, b: nat)
    ensures (a % DWORD_RANGE + b) % DWORD_RANGE == (a + b) % DWORD_RANGE
  {
    ModUnique(a + b, (a / DWORD_RANGE) + (a % DWORD_RANGE + b) / DWORD_RANGE,
              (a % DWORD_RANGE + b) % DWORD_RANGE);
  }

  // ---------------------------------------------------------------- lengths

  lemma {:induction false} EncodeArgsAppend(args: seq<Arg>, a: Arg)
    ensures EncodeArgs(args + [a]) == EncodeArgs(args) + EncodeArg(a)
  {
    if args == [] {
      assert [a][1..] == [];
    } else {
      assert (args + [a])[1..] == args[1..] + [a];
      EncodeArgsAppend(args[1..], a);
    }
  }

  lemma EncodeArgsStep(args: seq<Arg>, i: nat)
    requires i < |args|
    ensures EncodeArgs(args[..i + 1]) == EncodeArgs(args[..i]) + EncodeArg(args[i])
  {
    assert args[..i + 1] == args[..i] + [args[i]];
    EncodeArgsAppend(args[..i], args[i]);
  }

  /** The `switch` of VmDirGetMarshalLength. */
  method ArgLength(a: Arg) returns (add: nat)
    requires !a.Unsupported?
    ensures add == |EncodeArg(a)|
  {
    add := 4;
    match a {
      case Uint32(_) => add := add + 4;
      case Str(s) =>
        add := add + 8;
        if s.Some? { add := add + |s.value|; }
      case WStr(w) =>
        add := add + 8;
        if w.Some? { add := add + |w.value| * 2; }
      case Blob(b) => add := add + if b.Some? then |b.value| else 4;
      case BlobSize(_) =>
      case Bool(_) => add := add + 4;
      case Boolean(_) => add := add + 1;
    }
  }

  /** VmDirGetMarshalLength: the printed length, modulo 2^32. */
  method GetMarshalLength(args: seq<Arg>) returns (code: Code, size: uint32)
    ensures code == if AllSupported(args) then Success else InvalidParameter
    ensures size == if AllSupported(args) then (12 + |EncodeArgs(args)|) % DWORD_RANGE else 0
  {
    hide EncodeArg, Arg.Tag;
    size := 12;
    var i := 0;
    while i < |args|
      invariant i <= |args|
      invariant AllSupported(args[..i])
      invariant size == (12 + |EncodeArgs(args[..i])|) % DWORD_RANGE
    {
      if args[i].Unsupported? { return InvalidParameter, 0; }
      var add := ArgLength(args[i]);
      ModAdd(12 + |EncodeArgs(args[..i])|, add);
      EncodeArgsStep(args, i);
      size := (size + add) % DWORD_RANGE;
      i := i + 1;
    }
    assert args[..i] == args;
    code := Success;
  }

  // ---------------------------------------------------------------- marshalling

  predicate Blank(buf: array<byte>, from: nat)
    reads buf
  {
    forall k :: from <= k < buf.Length ==> buf[k] == 0
  }

  /** One checked store at the cursor. */
  method Put(buf: array<byte>, cursor: nat, remaining: uint32, data: seq<byte>)
    returns (code: Code, cursor': nat, remaining': uint32)
    requires cursor + remaining == buf.Length && |data| < LIMIT
    requires Blank(buf, cursor)
    modifies buf
    ensures code == if |data| <= remaining && remaining - |data| < LIMIT then Success else NotEnoughMemory
    ensures code == Success ==> cursor' == cursor + |data| && remaining' == remaining - |data|
    ensures code == Success ==> buf[..cursor'] == old(buf[..cursor]) + data && Blank(buf, cursor')
  {
    var left := CheckMemory(|data|, remaining);
    CheckMemoryMeaning(|data|, remaining);
    if left == None { return NotEnoughMemory, cursor, remaining; }
    forall i | 0 <= i < |data| { buf[cursor + i] := data[i]; }
    code, cursor', remaining' := Success, cursor + |data|, left.value;
    assert buf[..cursor] == old(buf[..cursor]);
  }

  /** The `switch` of VmDirMarshal: the payload of one argument behind its tag. A NULL scalar
      is skipped over, which leaves the zeroes of the allocation. */
  method PutPayload(buf: array<byte>, cursor: nat, remaining: uint32, a: Arg)
    returns (code: Code, cursor': nat, remaining': uint32)
    requires cursor + remaining == buf.Length && remaining < LIMIT
    requires a.Valid() && !a.Unsupported?
    requires Blank(buf, cursor)
    modifies buf
    ensures code == if |Payload(a)| <= remaining then Success else NotEnoughMemory
    ensures code == Success ==> cursor' == cursor + |Payload(a)| && remaining' == remaining - |Payload(a)|
    ensures code == Success ==> buf[..cursor'] == old(buf[..cursor]) + Payload(a) && Blank(buf, cursor')
  {
    hide LE, WBytes, FromLE;
    match a {
      case Uint32(u) => code, cursor', remaining' := Put(buf, cursor, remaining, LE(if u.Some? then u.value else 0, 4));
      case Str(s) => code, cursor', remaining' := PutText(buf, cursor, remaining,
          if s.Some? then |s.value| else 0, if s.Some? then s.value else []);
      case WStr(w) => code, cursor', remaining' := PutText(buf, cursor, remaining,
          if w.Some? then |w.value| else 0, if w.Some? then WBytes(w.value) else []);
      case Blob(b) => code, cursor', remaining' := Put(buf, cursor, remaining, if b.Some? then b.value else LE(4, 4));
      case BlobSize(_) => code, cursor', remaining' := Success, cursor, remaining;
      case Bool(v) => code, cursor', remaining' := Put(buf, cursor, remaining, LE(if v.Some? then v.value else 0, 4));
      case Boolean(y) => code, cursor', remaining' := Put(buf, cursor, remaining, [if y.Some? then y.value else 0]);
    }
  }

  method PutArg(buf: array<byte>, cursor: nat, remaining: uint32, a: Arg)
    returns (code: Code, cursor': nat, remaining': uint32)
    requires cursor + remaining == buf.Length && remaining < LIMIT && a.Valid()
    requires Blank(buf, cursor)
    modifies buf
    ensures code == if a.Unsupported? then InvalidParameter
                    else if |EncodeArg(a)| <= remaining then Success else NotEnoughMemory
    ensures code == Success ==> cursor' == cursor + |EncodeArg(a)| && remaining' == remaining - |EncodeArg(a)|
    ensures code == Success ==> buf[..cursor'] == old(buf[..cursor]) + EncodeArg(a) && Blank(buf, cursor')
  {
    hide LE, Payload, Arg.Tag, Arg.Valid;
    if a.Unsupported? { return InvalidParameter, cursor, remaining; }
    ghost var before := buf[..cursor];
    code, cursor', remaining' := Put(buf, cursor, remaining, LE(a.Tag(), 4));
    if code != Success { return; }
    code, cursor', remaining' := PutPayload(buf, cursor', remaining', a);
    assert before + EncodeArg(a) == before + LE(a.Tag(), 4) + Payload(a);
  }

  /** A string length and the string behind it. */
  method PutText(buf: array<byte>, cursor: nat, remaining: uint32, length: uint32, body: seq<byte>)
    returns (code: Code, cursor': nat, remaining': uint32)
    requires cursor + remaining == buf.Length && remaining < LIMIT && |body| < LIMIT
    requires Blank(buf, cursor)
    modifies buf
    ensures code == if 8 + |body| <= remaining then Success else NotEnoughMemory
    ensures code == Success ==> cursor' == cursor + 8 + |body| && remaining' == remaining - 8 - |body|
    ensures code == Success ==> buf[..cursor'] == old(buf[..cursor]) + (LE(length, 8) + body) && Blank(buf, cursor')
  {
    ghost var before := buf[..cursor];
    code, cursor', remaining' := Put(buf, cursor, remaining, LE(length, 8));
    if code != Success { return; }
    code, cursor', remaining' := Put(buf, cursor', remaining', body);
    if code == Success {
      assert before + (LE(length, 8) + body) == before + LE(length, 8) + body;
    }
  }

  /** The argument at which VmDirMarshal stops in a buffer with `room` bytes left. */
  function ArgsCode(args: seq<Arg>, room: nat): Code {
    if args == [] then Success
    else if args[0].Unsupported? then InvalidParameter
    else if |EncodeArg(args[0])| > room then NotEnoughMemory
    else ArgsCode(args[1..], room - |EncodeArg(args[0])|)
  }

  /** The size test on a whole message: any buffer from the printed length up to 2^31 + 3
      bytes is accepted, any other nonempty one is refused as too small. */
  function MarshalCode(args: seq<Arg>, size: uint32): Code {
    if size == 0 then InvalidParameter
    else if size < 12 || size - 4 >= LIMIT then NotEnoughMemory
    else ArgsCode(args, size - 12)
  }

  lemma {:induction false} ArgsCodeMeaning(args: seq<Arg>, room: nat)
    requires AllSupported(args)
    ensures ArgsCode(args, room) == if |EncodeArgs(args)| <= room then Success else NotEnoughMemory
  {
    if args != [] && |EncodeArg(args[0])| <= room {
      ArgsCodeMeaning(args[1..], room - |EncodeArg(args[0])|);
    }
  }

  lemma MarshalCodeMeaning(args: seq<Arg>, size: uint32)
    requires AllSupported(args)
    ensures MarshalCode(args, size) ==
            if size == 0 then InvalidParameter
            else if 12 + |EncodeArgs(args)| <= size < LIMIT + 4 then Success else NotEnoughMemory
  {
    if size >= 12 { ArgsCodeMeaning(args, size - 12); }
  }

  /** The length that VmDirGetMarshalLength reports is accepted exactly when the message is
      shorter than 2^31 + 4 bytes. */
  lemma ComputedLengthSuffices(args: seq<Arg>)
    requires AllSupported(args)
    ensures MarshalCode(args, (12 + |EncodeArgs(args)|) % DWORD_RANGE) == Success
       <==> 12 + |EncodeArgs(args)| < LIMIT + 4
  {
    MarshalCodeMeaning(args, (12 + |EncodeArgs(args)|) % DWORD_RANGE);
  }

  /** The three header fields, into a fresh buffer. */
  method PutHeader(buf: array<byte>, api: uint32, version: uint32, count: uint32)
    returns (code: Code, cursor: nat, remaining: uint32)
    requires buf.Length < DWORD_RANGE && Blank(buf, 0)
    modifies buf
    ensures code == if 12 <= buf.Length < LIMIT + 4 then Success else NotEnoughMemory
    ensures code == Success ==> cursor == 12 && remaining == buf.Length - 12
    ensures code == Success ==> buf[..cursor] == Header(api, version, count) && Blank(buf, cursor)
  {
    hide LE;
    cursor, remaining := 0, buf.Length;
    code, cursor, remaining := Put(buf, cursor, remaining, LE(api, 4));
    if code != Success { return; }
    code, cursor, remaining := Put(buf, cursor, remaining, LE(version, 4));
    if code != Success { return; }
    code, cursor, remaining := Put(buf, cursor, remaining, LE(count, 4));
  }

  /** VmDirMarshal fills a private zeroed buffer and publishes it only when all went well. */
  method Marshal(api: uint32, version: uint32, args: seq<Arg>, response: array<byte>, size: uint32)
    returns (code: Code)
    requires |args| < DWORD_RANGE && AllValid(args)
    requires size <= response.Length
    modifies response
    ensures code == MarshalCode(args, size)
    ensures code != Success ==> response[..] == old(response[..])
    ensures code == Success ==>
              var printed := Encode(api, version, args);
              && |printed| <= size
              && response[..|printed|] == printed
              && (forall k :: |printed| <= k < size ==> response[k] == 0)
              && response[size..] == old(response[size..])
  {
    hide LE, EncodeArg, Arg.Valid;
    if size == 0 { return InvalidParameter; }
    var buf := new byte[size](_ => 0);
    var cursor: nat, remaining: uint32;
    code, cursor, remaining := PutHeader(buf, api, version, |args|);
    if code != Success { return; }
    hide Header;
    var i := 0;
    while i < |args|
      invariant i <= |args| && cursor + remaining == size && remaining < LIMIT
      invariant buf[..cursor] == Header(api, version, |args|) + EncodeArgs(args[..i])
      invariant Blank(buf, cursor)
      invariant response[..] == old(response[..])
      invariant ArgsCode(args, size - 12) == ArgsCode(args[i..], remaining)
      invariant size >= 12 && size - 4 < LIMIT
    {
      code, cursor, remaining := PutArg(buf, cursor, remaining, args[i]);
      assert args[i..][1..] == args[i + 1..];
      if code != Success { return; }
      EncodeArgsStep(args, i);
      i := i + 1;
    }
    assert args[..i] == args;
    forall k | 0 <= k < size { response[k] := buf[k]; }
    code := Success;
    ghost var printed := Encode(api, version, args);
    assert response[..|printed|] == buf[..cursor];
  }

  // ---------------------------------------------------------------- unmarshalling

  datatype Reading = Done(code: Code) | PastEnd

  /** VmDirUnMarshal reads tagged arguments into the caller's type specs. The message size is
      only compared with zero, so it may be any nonzero number. */
  method UnMarshal(api: uint32, version: uint32, response: seq<byte>, size: uint32, specs: array<Arg>)
    returns (r: Reading, bytesRead: uint32)
    requires specs.Length < DWORD_RANGE
    modifies specs
    ensures Tags(specs[..]) == old(Tags(specs[..]))
    ensures size == 0 ==> r == Done(InvalidParameter)
    ensures size != 0 ==> match Decode(api, version, old(Tags(specs[..])), response)
                          case Parsed(args, used) => r == Done(Success) && specs[..] == args && bytesRead == used % DWORD_RANGE
                          case Invalid => r == Done(InvalidParameter)
                          case Overrun => r == PastEnd
    ensures |response| >= 12 && response[..12] != LE(api, 4) + LE(version, 4) + LE(specs.Length, 4) ==>
              r == Done(InvalidParameter) && specs[..] == old(specs[..])
    ensures r == Done(Success) ==> |response| >= 12 && response[..12] == LE(api, 4) + LE(version, 4) + LE(specs.Length, 4)
  {
    hide Decode, DecodeArgs, Tags, FromLE, LE;
    HeaderDecides(api, version, Tags(specs[..]), response);
    if |response| >= 12 { HeaderBytes(api, version, specs.Length, response); }
    bytesRead := 0;
    if size == 0 { return Done(InvalidParameter), 0; }
    if |response| < 12 { return PastEnd, 0; }
    if FromLE(response[..4]) != api || FromLE(response[4..8]) != version || FromLE(response[8..12]) != specs.Length {
      return Done(InvalidParameter), 0;
    }
    r, bytesRead := ReadArgs(response[12..], specs);
  }

  /** The argument loop of VmDirUnMarshal, behind the header. */
  method ReadArgs(body: seq<byte>, specs: array<Arg>) returns (r: Reading, bytesRead: uint32)
    requires specs.Length < DWORD_RANGE
    modifies specs
    ensures Tags(specs[..]) == old(Tags(specs[..]))
    ensures match DecodeArgs(old(Tags(specs[..])), body, 0)
            case Parsed(args, used) => r == Done(Success) && specs[..] == args && bytesRead == (12 + used) % DWORD_RANGE
            case Invalid => r == Done(InvalidParameter)
            case Overrun => r == PastEnd
  {
    hide DecodeArg, DecodeArgs, Arg.Tag, Behind, Tags, Resume;
    var rest := body;
    bytesRead := 12;
    ghost var tags, moved: nat := Tags(specs[..]), 0;
    assert tags[0..] == tags;
    ResumeNothing(DecodeArgs(tags, rest, 0));
    var i, blobSize: uint32 := 0, 0;
    while i < specs.Length
      invariant i <= specs.Length && bytesRead == (12 + moved) % DWORD_RANGE
      invariant Tags(specs[..]) == tags
      invariant DecodeArgs(tags, body, 0) == Resume(specs[..i], moved, DecodeArgs(tags[i..], rest, blobSize))
    {
      var step := DecodeArg(specs[i].Tag(), rest, blobSize);
      ResumeStep(specs[..i], moved, tags[i..], rest, blobSize);
      assert tags[i] == specs[i].Tag() && tags[i..][1..] == tags[i + 1..];
      if step.Overrun? { return PastEnd, bytesRead; }
      if step.Invalid? { return Done(InvalidParameter), bytesRead; }
      ghost var done := specs[..i];
      TagsKept(specs[..], i, step.value.arg);
      assert specs[..][i := step.value.arg][..i + 1] == done + [step.value.arg];
      specs[i] := step.value.arg;
      assert specs[..i + 1] == done + [step.value.arg];
      ModAdd(12 + moved, step.used);
      rest, moved := Behind(rest, step.used), moved + step.used;
      blobSize, bytesRead := step.value.blobSize, (bytesRead + step.used) % DWORD_RANGE;
      i := i + 1;
    }
    assert specs[..i] == specs[..] && tags[i..] == [];
    NoArgs(rest, blobSize);
    ResumeEnd(specs[..], moved);
    r := Done(Success);
  }

  /** A parse continued after `used` bytes gave the arguments `done`. */
  function Resume(done: seq<Arg>, used: nat, rest: Parse<seq<Arg>>): Parse<seq<Arg>> {
    match rest
    case Parsed(args, n) => Parsed(done + args, used + n)
    case _ => rest
  }

  lemma ResumeStep(done: seq<Arg>, used: nat, tags: seq<uint32>, b: seq<byte>, blobSize: uint32)
    requires tags != []
    ensures Resume(done, used, DecodeArgs(tags, b, blobSize)) ==
            match DecodeArg(tags[0], b, blobSize)
            case Invalid => Invalid
            case Overrun => Overrun
            case Parsed(step, n) =>
              Resume(done + [step.arg], used + n, DecodeArgs(tags[1..], Behind(b, n), step.blobSize))
  {
    var first := DecodeArg(tags[0], b, blobSize);
    DecodeArgsUnfold(tags, b, blobSize);
    hide DecodeArg, DecodeArgs, Behind, Tags, Arg.Tag;
    if first.Parsed? {
      ResumeOne(done, used, first.value.arg, first.used, DecodeArgs(tags[1..], Behind(b, first.used), first.value.blobSize));
    }
  }

  lemma ResumeOne(done: seq<Arg>, used: nat, a: Arg, n: nat, rest: Parse<seq<Arg>>)
    ensures Resume(done, used, Preceded(a, n, rest)) == Resume(done + [a], used + n, rest)
  {
    if rest.Parsed? { assert done + ([a] + rest.value) == done + [a] + rest.value; }
  }

  lemma ResumeEnd(done: seq<Arg>, used: nat)
    ensures Resume(done, used, Parsed([], 0)) == Parsed(done, used)
  {
    assert done + [] == done;
  }

  lemma TagsKept(args: seq<Arg>, i: nat, a: Arg)
    requires i < |args| && a.Tag() == args[i].Tag()
    ensures Tags(args[i := a]) == Tags(args)
  {
    hide Arg.Tag;
  }

  lemma ResumeNothing(rest: Parse<seq<Arg>>)
    ensures Resume([], 0, rest) == rest
  {
    if rest.Parsed? { assert [] + rest.value == rest.value; }
  }

  /** Computed length, printed length and consumed length are one number; that size is accepted
      and every smaller nonzero one is refused. */
  lemma ThreeWaySize(api: uint32, version: uint32, args: seq<Arg>, tail: seq<byte>, m: uint32)
    requires |args| < DWORD_RANGE && AllValid(args) && AllSupported(args)
    requires |Encode(api, version, args)| < LIMIT
    ensures var n := |Encode(api, version, args)|;
            && (12 + |EncodeArgs(args)|) % DWORD_RANGE == n
            && MarshalCode(args, n) == Success
            && (0 < m < n ==> MarshalCode(args, m) == NotEnoughMemory)
            && Decode(api, version, Tags(args), Encode(api, version, args) + tail) == Parsed(Canonical(args, 0), n)
  {
    hide EncodeArgs, Decode, Canonical, MarshalCode, Header, Tags, AllSupported, AllValid;
    RoundTrip(api, version, args, tail);
    MarshalCodeMeaning(args, m);
    MarshalCodeMeaning(args, |Encode(api, version, args)|);
  }
}
