/** lwraft/common/networkutiluniximpl.c: length-prefixed messages over a socket whose calls may
    be interrupted, fail, or move fewer bytes than asked for. */
module Transport {
  import opened Bytes

  const PACKET_SIZE: nat := 64 * 1024
  const EINTR: int := 4

  /** What the kernel does with one read or write call. */
  datatype Outcome = Interrupted | Failed(errno: int) | Moved(n: nat)

  /** The first outcome that is not an interruption; once the script is used up every call
      moves all it can. */
  function Settled(script: seq<Outcome>): Outcome {
    if script == [] then Moved(PACKET_SIZE)
    else if script[0].Interrupted? then Settled(script[1..])
    else script[0]
  }

  function AfterSettled(script: seq<Outcome>): (rest: seq<Outcome>)
    ensures |rest| <= |script|
    ensures script != [] ==> |rest| < |script|
    ensures forall o :: o in rest ==> o in script
  {
    if script == [] then []
    else if script[0].Interrupted? then AfterSettled(script[1..])
    else script[1..]
  }

  /** errno behind a call: an interruption leaves EINTR, a failure its own code, and a call that
      moves bytes leaves it alone. */
  function ErrnoAfter(script: seq<Outcome>, errno: int): int {
    if script == [] then errno
    else match script[0]
      case Interrupted => ErrnoAfter(script[1..], EINTR)
      case Failed(e) => e
      case Moved(_) => errno
  }

  /** The call that carries the 4-byte length prefix moved all of it. */
  predicate HeaderWhole(script: seq<Outcome>) {
    Settled(script).Moved? && Settled(script).n >= 4
  }

  /** Real failures carry an errno other than zero and EINTR. */
  predicate RealScript(script: seq<Outcome>) {
    forall o :: o in script && o.Failed? ==> o.errno != 0 && o.errno != EINTR
  }

  predicate NoFailure(script: seq<Outcome>) {
    forall o :: o in script ==> !o.Failed?
  }

  function Frame(data: seq<byte>): seq<byte> {
    LE(|data|, 4) + data
  }

  function Min(a: int, b: int): int { if a < b then a else b }
  function Max(a: int, b: int): int { if a > b then a else b }

  /** The part of the length prefix that reaches the wire. */
  function PrefixSent(script: seq<Outcome>, prefix: seq<byte>): seq<byte> {
    match Settled(script)
    case Moved(n) => prefix[..Min(n, |prefix|)]
    case _ => []
  }

  /** The part of the length prefix that the prefix call takes off the stream. */
  function PrefixRead(script: seq<Outcome>, incoming: seq<byte>): (p: seq<byte>)
    ensures |p| <= 4 && p <= incoming
    ensures |p| == 4 <==> HeaderWhole(script) && |incoming| >= 4
  {
    match Settled(script)
    case Moved(n) => incoming[..Min(Max(n, 1), Min(4, |incoming|))]
    case _ => []
  }

  /** One end of a connected socket, with what the kernel will do on the coming write and read
      calls. */
  class Connection {
    var outgoing: seq<byte>
    var incoming: seq<byte>
    var writeScript: seq<Outcome>
    var readScript: seq<Outcome>
    var errno: int

    /** write(2), repeated while it is interrupted. */
    method WriteCall(data: seq<byte>) returns (moved: int)
      requires |data| <= PACKET_SIZE && RealScript(writeScript)
      modifies this
      ensures incoming == old(incoming) && readScript == old(readScript) && writeScript == AfterSettled(old(writeScript)) && RealScript(writeScript)
      ensures match Settled(old(writeScript))
              case Moved(n) => moved == Min(n, |data|) && outgoing == old(outgoing) + data[..moved]
              case Failed(e) => moved == -1 && errno == e && outgoing == old(outgoing)
              case Interrupted => false
      ensures errno == ErrnoAfter(old(writeScript), old(errno))
      ensures NoFailure(old(writeScript)) ==> moved >= 0 && NoFailure(writeScript)
    {
      while writeScript != [] && writeScript[0].Interrupted?
        invariant Settled(writeScript) == Settled(old(writeScript))
        invariant AfterSettled(writeScript) == AfterSettled(old(writeScript))
        invariant outgoing == old(outgoing) && incoming == old(incoming) && readScript == old(readScript) && RealScript(writeScript)
        invariant ErrnoAfter(writeScript, errno) == ErrnoAfter(old(writeScript), old(errno))
        invariant NoFailure(old(writeScript)) ==> NoFailure(writeScript)
        decreases |writeScript|
      {
        errno, writeScript := EINTR, writeScript[1..];
      }
      var outcome := if writeScript == [] then Moved(PACKET_SIZE) else writeScript[0];
      if writeScript != [] { writeScript := writeScript[1..]; }
      match outcome {
        case Moved(n) =>
          moved := Min(n, |data|);
          outgoing := outgoing + data[..moved];
        case Failed(e) =>
          moved, errno := -1, e;
      }
    }

    /** read(2), repeated while it is interrupted; zero bytes mean end of file. */
    method ReadCall(limit: nat) returns (moved: int, data: seq<byte>)
      requires 0 < limit <= PACKET_SIZE && RealScript(readScript)
      modifies this
      ensures outgoing == old(outgoing) && writeScript == old(writeScript) && readScript == AfterSettled(old(readScript)) && RealScript(readScript)
      ensures match Settled(old(readScript))
              case Moved(n) =>
                moved == |data| == Min(Max(n, 1), Min(limit, |old(incoming)|)) && old(incoming) == data + incoming
              case Failed(e) => moved == -1 && errno == e && incoming == old(incoming) && data == []
              case Interrupted => false
      ensures errno == ErrnoAfter(old(readScript), old(errno))
      ensures NoFailure(old(readScript)) ==> moved >= 0 && NoFailure(readScript)
    {
      while readScript != [] && readScript[0].Interrupted?
        invariant Settled(readScript) == Settled(old(readScript))
        invariant AfterSettled(readScript) == AfterSettled(old(readScript))
        invariant outgoing == old(outgoing) && incoming == old(incoming) && writeScript == old(writeScript) && RealScript(readScript)
        invariant ErrnoAfter(readScript, errno) == ErrnoAfter(old(readScript), old(errno))
        invariant NoFailure(old(readScript)) ==> NoFailure(readScript)
        decreases |readScript|
      {
        errno, readScript := EINTR, readScript[1..];
      }
      var outcome := if readScript == [] then Moved(PACKET_SIZE) else readScript[0];
      if readScript != [] { readScript := readScript[1..]; }
      match outcome {
        case Moved(n) =>
          moved := Min(Max(n, 1), Min(limit, |incoming|));
          data, incoming := incoming[..moved], incoming[moved..];
        case Failed(e) =>
          moved, data, errno := -1, [], e;
      }
    }
  }

  // ---------------------------------------------------------------- writing

  /** What the code takes for a whole prefix. The result is compared as an unsigned number, so a
      failed call (-1) passes; a short one is reported with whatever errno holds, and passes when
      that is zero. */
  predicate PrefixPasses(script: seq<Outcome>, errno: int) {
    match Settled(script)
    case Moved(n) => n >= 4 || ErrnoAfter(script, errno) == 0
    case _ => true
  }

  /** How many of `left` body bytes the write loop gets out. */
  function BodySent(script: seq<Outcome>, left: nat): (k: nat)
    ensures k <= left
    decreases |script|, left
  {
    if left == 0 then 0
    else match Settled(script)
      case Moved(n) =>
        var m := Min(n, Min(PACKET_SIZE, left));
        m + BodySent(AfterSettled(script), left - m)
      case _ => 0
  }

  /** The errno of the call that ended an incomplete body. */
  function BodyErrno(script: seq<Outcome>, left: nat): int
    decreases |script|, left
  {
    if left == 0 then 0
    else match Settled(script)
      case Moved(n) => BodyErrno(AfterSettled(script), left - Min(n, Min(PACKET_SIZE, left)))
      case Failed(e) => e
      case Interrupted => 0
  }

  /** The code that VmDirWriteDataImpl returns and the bytes it puts on the wire. */
  function Written(script: seq<Outcome>, errno: int, request: seq<byte>): (Code, seq<byte>) {
    var prefix, rest := PrefixSent(script, LE(|request|, 4)), AfterSettled(script);
    if !PrefixPasses(script, errno) then (Errno(ErrnoAfter(script, errno)), prefix)
    else
      var k := BodySent(rest, |request|);
      (if k == |request| then Success else Errno(BodyErrno(rest, |request|)), prefix + request[..k])
  }

  lemma {:induction false} BodyAllSent(script: seq<Outcome>, left: nat)
    requires NoFailure(script)
    ensures BodySent(script, left) == left
    decreases |script|, left
  {
    if left > 0 {
      SettledNoFailure(script);
      var n := Settled(script).n;
      BodyAllSent(AfterSettled(script), left - Min(n, Min(PACKET_SIZE, left)));
    }
  }

  lemma {:induction false} SettledNoFailure(script: seq<Outcome>)
    requires NoFailure(script)
    ensures Settled(script).Moved? && NoFailure(AfterSettled(script))
  {
    if script != [] && script[0].Interrupted? { SettledNoFailure(script[1..]); }
  }

  /** Success is reported without the frame on the wire exactly when the prefix call was not
      whole but passed and the body went out. */
  lemma SuccessWithoutFrame(script: seq<Outcome>, errno: int, request: seq<byte>)
    ensures var (code, sent) := Written(script, errno, request);
            && (code == Success <==> PrefixPasses(script, errno) && BodySent(AfterSettled(script), |request|) == |request|)
            && (code == Success && sent != Frame(request) <==>
                PrefixPasses(script, errno) && !HeaderWhole(script) && BodySent(AfterSettled(script), |request|) == |request|)
            && (!PrefixPasses(script, errno) ==> sent == PrefixSent(script, LE(|request|, 4)))
  {
    hide LE, Settled, BodySent, ErrnoAfter, PrefixSent;
    var prefix := PrefixSent(script, LE(|request|, 4));
    PrefixWhole(script, LE(|request|, 4));
    assert request[..|request|] == request;
    if prefix != LE(|request|, 4) { assert |prefix + request| != |Frame(request)|; }
  }

  /** A failed prefix call: success, and the request is on the wire without its length. */
  lemma FailedPrefixPasses(e: int, errno: int, request: seq<byte>)
    ensures Written([Failed(e)], errno, request) == (Success, request)
  {
    hide LE;
    assert [Failed(e)][1..] == [];
    BodyAllSent([], |request|);
    assert [] + request[..|request|] == request;
  }

  /** A short prefix call: with errno zero the request follows the cut prefix and success is
      reported, otherwise errno is returned and nothing follows; an interruption before it has
      left EINTR, which is 4. */
  lemma ShortWritePrefix(n: nat, errno: int, request: seq<byte>)
    requires n < 4
    ensures Written([Moved(n)], errno, request)
         == if errno == 0 then (Success, LE(|request|, 4)[..n] + request) else (Errno(errno), LE(|request|, 4)[..n])
    ensures Written([Interrupted, Moved(n)], errno, request) == (Errno(4), LE(|request|, 4)[..n])
  {
    hide LE;
    assert [Moved(n)][1..] == [] && [Interrupted, Moved(n)][1..] == [Moved(n)];
    assert Settled([Moved(n)]) == Moved(n) && Settled([Interrupted, Moved(n)]) == Settled([Moved(n)]);
    assert ErrnoAfter([Moved(n)], EINTR) == EINTR && ErrnoAfter([Interrupted, Moved(n)], errno) == ErrnoAfter([Moved(n)], EINTR);
    BodyAllSent([], |request|);
    assert request[..|request|] == request;
  }

  /** VmDirWriteDataImpl: what it returns and sends, for every script of call outcomes. */
  method WriteData(c: Connection, request: seq<byte>) returns (code: Code)
    requires |request| < 0x1_0000_0000 && RealScript(c.writeScript)
    modifies c
    ensures RealScript(c.writeScript) && c.incoming == old(c.incoming) && c.readScript == old(c.readScript)
    ensures var (returned, sent) := Written(old(c.writeScript), old(c.errno), request);
            code == returned && c.outgoing == old(c.outgoing) + sent
    ensures code == Success ==>
              (c.outgoing == old(c.outgoing) + Frame(request) <==> HeaderWhole(old(c.writeScript)))
    ensures NoFailure(old(c.writeScript)) && HeaderWhole(old(c.writeScript)) ==> code == Success
  {
    hide LE, Settled, AfterSettled, ErrnoAfter, BodySent, BodyErrno, PrefixSent;
    ghost var script, before := c.writeScript, c.outgoing;
    ghost var prefix := PrefixSent(script, LE(|request|, 4));
    var moved := WritePrefix(c, |request|);
    WrittenFrame(before, script, request);
    if 0 <= moved < 4 && c.errno != 0 { return Errno(c.errno); }
    ghost var k := BodySent(c.writeScript, |request|);
    if NoFailure(script) {
      SettledNoFailure(script);
      BodyAllSent(c.writeScript, |request|);
    }
    code := WriteBody(c, request);
    assert before + prefix + request[..k] == before + (prefix + request[..k]);
    if code == Success { assert request[..k] == request; }
  }

  /** The prefix call. */
  method WritePrefix(c: Connection, size: uint32) returns (moved: int)
    requires RealScript(c.writeScript)
    modifies c
    ensures RealScript(c.writeScript) && c.incoming == old(c.incoming) && c.readScript == old(c.readScript)
    ensures c.writeScript == AfterSettled(old(c.writeScript)) && c.errno == ErrnoAfter(old(c.writeScript), old(c.errno))
    ensures c.outgoing == old(c.outgoing) + PrefixSent(old(c.writeScript), LE(size, 4))
    ensures 0 <= moved < 4 && c.errno != 0 <==> !PrefixPasses(old(c.writeScript), old(c.errno))
  {
    hide LE;
    moved := c.WriteCall(LE(size, 4));
  }

  /** The chunk loop. */
  method WriteBody(c: Connection, request: seq<byte>) returns (code: Code)
    requires RealScript(c.writeScript)
    modifies c
    ensures RealScript(c.writeScript) && c.incoming == old(c.incoming) && c.readScript == old(c.readScript)
    ensures var k := BodySent(old(c.writeScript), |request|);
            && c.outgoing == old(c.outgoing) + request[..k]
            && code == if k == |request| then Success else Errno(BodyErrno(old(c.writeScript), |request|))
  {
    var cursor := 0;
    ghost var start, script := c.outgoing, c.writeScript;
    assert start == start + request[..0];
    hide Settled, AfterSettled;
    while cursor < |request|
      invariant 0 <= cursor <= |request|
      invariant c.outgoing == start + request[..cursor]
      invariant RealScript(c.writeScript) && c.incoming == old(c.incoming) && c.readScript == old(c.readScript)
      invariant BodySent(script, |request|) == cursor + BodySent(c.writeScript, |request| - cursor)
      invariant BodyErrno(script, |request|) == BodyErrno(c.writeScript, |request| - cursor)
      decreases |c.writeScript|, |request| - cursor
    {
      var chunk := Min(PACKET_SIZE, |request| - cursor);
      var moved := c.WriteCall(request[cursor..cursor + chunk]);
      if moved == -1 { return Errno(c.errno); }
      Advance(start, request, cursor, chunk, moved);
      cursor := cursor + moved;
    }
    code := Success;
  }

  lemma Advance(start: seq<byte>, request: seq<byte>, cursor: nat, chunk: nat, moved: nat)
    requires cursor + chunk <= |request| && moved <= chunk
    ensures start + request[..cursor] + request[cursor..cursor + chunk][..moved] == start + request[..cursor + moved]
  {
    assert request[..cursor + moved] == request[..cursor] + request[cursor..cursor + chunk][..moved];
  }

  lemma WrittenFrame(before: seq<byte>, script: seq<Outcome>, request: seq<byte>)
    ensures before + PrefixSent(script, LE(|request|, 4)) + request == before + Frame(request)
       <==> HeaderWhole(script)
  {
    hide LE, Settled;
    PrefixWhole(script, LE(|request|, 4));
    SameJoin(before, PrefixSent(script, LE(|request|, 4)), LE(|request|, 4), request);
  }

  lemma PrefixWhole(script: seq<Outcome>, prefix: seq<byte>)
    requires |prefix| == 4
    ensures if HeaderWhole(script) then PrefixSent(script, prefix) == prefix else |PrefixSent(script, prefix)| < 4
  {
  }

  lemma SameJoin(before: seq<byte>, sent: seq<byte>, prefix: seq<byte>, request: seq<byte>)
    requires sent == prefix || |sent| < |prefix|
    ensures before + sent + request == before + (prefix + request) <==> sent == prefix
  {
    if sent == prefix {
      assert before + prefix + request == before + (prefix + request);
    } else {
      assert |before + sent + request| != |before + (prefix + request)|;
    }
  }

  // ---------------------------------------------------------------- reading

  /** What the read side takes for a whole prefix: a failed call passes here too, but announces
      nothing. */
  predicate ReadPasses(script: seq<Outcome>, errno: int, incoming: seq<byte>) {
    Settled(script).Moved? ==> |PrefixRead(script, incoming)| == 4 || ErrnoAfter(script, errno) == 0
  }

  /** How the read loop ends: complete with a last chunk, or with an error. */
  datatype BodyEnd = Complete(last: nat) | Broken(code: Code)

  function Chunks(script: seq<Outcome>, available: nat, left: nat, last: nat): (r: BodyEnd)
    ensures r.Complete? ==> left <= available && (r.last <= PACKET_SIZE || r.last == last)
    ensures r.Complete? && left > 0 ==> 0 < r.last <= left
    ensures r.Broken? ==> r.code != Success
    decreases left
  {
    if left == 0 then Complete(last)
    else match Settled(script)
      case Moved(n) =>
        var m := Min(Max(n, 1), Min(Min(PACKET_SIZE, left), available));
        if m == 0 then Broken(IoIncomplete) else Chunks(AfterSettled(script), available - m, left - m, m)
      case Failed(e) => Broken(Errno(e))
      case Interrupted => Broken(IoIncomplete)
  }

  /** Code, response and reported size of VmDirReadDataImpl. */
  function Received(script: seq<Outcome>, errno: int, incoming: seq<byte>): (Code, seq<byte>, nat) {
    var prefix := PrefixRead(script, incoming);
    var size := FromLE(prefix);
    if !ReadPasses(script, errno, incoming) then (Errno(ErrnoAfter(script, errno)), [], 0)
    else if size == 0 then (InvalidParameter, [], 0)
    else match Chunks(AfterSettled(script), |incoming| - |prefix|, size, 0)
      case Complete(last) => (Success, incoming[|prefix|..|prefix| + size], last)
      case Broken(code) => (code, [], 0)
  }

  lemma {:induction false} ChunksComplete(script: seq<Outcome>, available: nat, left: nat, last: nat)
    requires NoFailure(script) && left <= available
    ensures Chunks(script, available, left, last).Complete?
    decreases left
  {
    if left > 0 {
      SettledNoFailure(script);
      var m := Min(Max(Settled(script).n, 1), Min(Min(PACKET_SIZE, left), available));
      ChunksComplete(AfterSettled(script), available - m, left - m, m);
    }
  }

  /** Success is reported without a whole frame taken off the stream exactly when the prefix call
      was short, errno was zero, and the body that the partial prefix announces was read. */
  lemma ReceivedWithoutFrame(script: seq<Outcome>, errno: int, incoming: seq<byte>)
    ensures var (code, response, last) := Received(script, errno, incoming);
            var prefix := PrefixRead(script, incoming);
            && (code == Success ==> |prefix| + |response| <= |incoming| && |response| == FromLE(prefix)
                                    && incoming == prefix + response + incoming[|prefix| + |response|..])
            && (code == Success && !(Frame(response) <= incoming && |prefix| == 4) <==>
                && Settled(script).Moved? && |prefix| < 4 && ErrnoAfter(script, errno) == 0 && FromLE(prefix) > 0
                && Chunks(AfterSettled(script), |incoming| - |prefix|, FromLE(prefix), 0).Complete?)
  {
    var (code, response, last) := Received(script, errno, incoming);
    var prefix := PrefixRead(script, incoming);
    if !Settled(script).Moved? { assert prefix == [] && FromLE(prefix) == 0; }
    hide FromLE, Settled, AfterSettled, ErrnoAfter, PrefixRead, Chunks, LE;
    if code == Success {
      var rest := incoming[|prefix| + |response|..];
      assert incoming == prefix + response + rest;
      FrameTaken(prefix, response, rest);
      if |prefix| == 4 { assert Frame(response) <= Frame(response) + rest; }
    }
  }

  /** One byte of prefix announces one byte of body. */
  lemma ShortPrefixPasses(x: byte)
    ensures Received([Moved(1)], 0, [1, x]) == (Success, [x], 1)
  {
    assert [Moved(1)][1..] == [] && [1, x][..1] == [1] && [1][1..] == [];
    assert FromLE([1]) == 1 + 256 * FromLE([]);
    assert Chunks([], 1, 1, 0) == Complete(1);
    assert [1, x][1..2] == [x];
  }

  /** When every call moves all it can, a chunk is 64 KiB and the last one the rest. */
  lemma {:induction false} LastChunk(available: nat, left: nat, last: nat)
    requires 0 < left <= available
    ensures Chunks([], available, left, last) == Complete((left - 1) % 0x1_0000 + 1)
    decreases left
  {
    if left > 0x1_0000 {
      LastChunk(available - 0x1_0000, left - 0x1_0000, 0x1_0000);
    } else {
      assert Chunks([], available - left, 0, left) == Complete(left);
    }
  }

  /** VmDirReadDataImpl. `lastChunk` is what it reports as the size: the bytes of the last read
      call, not the total. */
  method ReadData(c: Connection) returns (code: Code, response: seq<byte>, lastChunk: nat)
    requires RealScript(c.readScript)
    modifies c
    ensures RealScript(c.readScript) && c.outgoing == old(c.outgoing) && c.writeScript == old(c.writeScript)
    ensures (code, response, lastChunk) == Received(old(c.readScript), old(c.errno), old(c.incoming))
    ensures code != Success ==> response == [] && lastChunk == 0
    ensures code == Success ==> 0 < lastChunk <= |response| < 0x1_0000_0000 && lastChunk <= PACKET_SIZE
    ensures code == Success ==>
              var prefix := PrefixRead(old(c.readScript), old(c.incoming));
              |response| == FromLE(prefix) && old(c.incoming) == prefix + response + c.incoming
    ensures code == Success ==>
              (old(c.incoming) == Frame(response) + c.incoming <==> HeaderWhole(old(c.readScript)) && |old(c.incoming)| >= 4)
    ensures NoFailure(old(c.readScript)) && HeaderWhole(old(c.readScript)) && HoldsFrame(old(c.incoming)) ==>
              code == Success && |response| == FromLE(old(c.incoming)[..4])
  {
    hide FromLE, LE, PrefixRead, Settled, AfterSettled, ErrnoAfter, Chunks;
    ghost var prefix, all := PrefixRead(c.readScript, c.incoming), c.incoming;
    if NoFailure(c.readScript) { SettledNoFailure(c.readScript); }
    var size;
    code, size := ReadPrefix(c);
    if code != Success { return code, [], 0; }
    if size == 0 { return InvalidParameter, [], 0; }
    if NoFailure(c.readScript) && size <= |c.incoming| { ChunksComplete(c.readScript, |c.incoming|, size, 0); }
    code, response, lastChunk := ReadBody(c, size);
    if code == Success {
      assert prefix + (response + c.incoming) == prefix + response + c.incoming;
      assert all[|prefix|..|prefix| + size] == response;
      FrameTaken(prefix, response, c.incoming);
    }
  }

  lemma FrameTaken(prefix: seq<byte>, response: seq<byte>, rest: seq<byte>)
    requires |prefix| <= 4 && FromLE(prefix) == |response|
    ensures prefix + response + rest == Frame(response) + rest <==> |prefix| == 4
  {
    if |prefix| == 4 {
      LEInvertsFromLE(prefix);
    } else {
      assert |prefix + response + rest| != |Frame(response) + rest|;
    }
  }

  /** A nonempty message and its length prefix have arrived completely. */
  predicate HoldsFrame(incoming: seq<byte>) {
    |incoming| >= 4 && 0 < FromLE(incoming[..4]) <= |incoming| - 4
  }

  lemma FrameSplit(incoming: seq<byte>, data: seq<byte>, rest: seq<byte>)
    requires |data| < 0x1_0000_0000 && incoming == Frame(data) + rest
    ensures |incoming| >= 4 && FromLE(incoming[..4]) == |data| && incoming[4..] == data + rest
    ensures data != [] ==> HoldsFrame(incoming)
  {
    Pow256Values();
    FromLEInvertsLE(|data|, 4);
    assert incoming[..4] == LE(|data|, 4);
  }

  /** The length prefix: a failed call leaves the zero the size was initialised to. */
  method ReadPrefix(c: Connection) returns (code: Code, size: uint32)
    requires RealScript(c.readScript)
    modifies c
    ensures RealScript(c.readScript) && c.outgoing == old(c.outgoing) && c.writeScript == old(c.writeScript)
    ensures c.readScript == AfterSettled(old(c.readScript))
    ensures old(c.incoming) == PrefixRead(old(c.readScript), old(c.incoming)) + c.incoming
    ensures code == if ReadPasses(old(c.readScript), old(c.errno), old(c.incoming)) then Success
                    else Errno(ErrnoAfter(old(c.readScript), old(c.errno)))
    ensures code == Success ==> size == FromLE(PrefixRead(old(c.readScript), old(c.incoming)))
  {
    hide FromLE;
    var moved, data := c.ReadCall(4);
    assert data == PrefixRead(old(c.readScript), old(c.incoming));
    if 0 <= moved < 4 && c.errno != 0 { return Errno(c.errno), 0; }
    FromLEBound(data);
    Pow256Values();
    PowMonotone(|data|, 4);
    code, size := Success, FromLE(data);
  }

  lemma {:induction false} PowMonotone(a: nat, b: nat)
    requires a <= b
    ensures Pow256(a) <= Pow256(b)
  {
    if a < b { PowMonotone(a, b - 1); }
  }

  /** The chunk loop. */
  method ReadBody(c: Connection, size: uint32) returns (code: Code, response: seq<byte>, lastChunk: nat)
    requires size > 0 && RealScript(c.readScript)
    modifies c
    ensures RealScript(c.readScript) && c.outgoing == old(c.outgoing) && c.writeScript == old(c.writeScript)
    ensures match Chunks(old(c.readScript), |old(c.incoming)|, size, 0)
            case Complete(last) => code == Success && lastChunk == last && |response| == size
            case Broken(broken) => code == broken && response == [] && lastChunk == 0
    ensures code == Success ==> old(c.incoming) == response + c.incoming
  {
    var buffer, moved := [], 0;
    hide Settled, AfterSettled;
    while |buffer| < size
      invariant |buffer| <= size && old(c.incoming) == buffer + c.incoming
      invariant RealScript(c.readScript) && c.outgoing == old(c.outgoing) && c.writeScript == old(c.writeScript)
      invariant moved >= 0
      invariant Chunks(old(c.readScript), |old(c.incoming)|, size, 0)
             == Chunks(c.readScript, |c.incoming|, size - |buffer|, moved)
      decreases size - |buffer|
    {
      var data;
      moved, data := c.ReadCall(Min(PACKET_SIZE, size - |buffer|));
      if moved == -1 { return Errno(c.errno), [], 0; }
      if moved == 0 { return IoIncomplete, [], 0; }
      assert buffer + (data + c.incoming) == buffer + data + c.incoming;
      buffer := buffer + data;
    }
    code, response, lastChunk := Success, buffer, moved;
  }
}
