/** lwraft/client/vmdirlocalclient.c: one request and its reply, composed from sizing,
    marshalling, the transport and unmarshalling. */
module LocalClient {
  import opened Bytes
  import opened Wire
  import opened Marshal
  import opened Transport

  const VER1_INPUT: uint32 := 0
  const VER1_OUTPUT: uint32 := 1

  /** Sizes, prints and writes one message, as the client does with a request and the server
      with a reply. */
  method Send(c: Connection, api: uint32, version: uint32, args: seq<Arg>) returns (code: Code)
    requires |args| < DWORD_RANGE && AllValid(args) && RealScript(c.writeScript)
    modifies c
    ensures RealScript(c.writeScript) && c.incoming == old(c.incoming) && c.readScript == old(c.readScript)
    ensures !AllSupported(args) ==> code == InvalidParameter && c.outgoing == old(c.outgoing)
    ensures AllSupported(args) && |Encode(api, version, args)| < LIMIT + 4 ==>
              var (returned, sent) := Written(old(c.writeScript), old(c.errno), Encode(api, version, args));
              code == returned && c.outgoing == old(c.outgoing) + sent
    ensures |Encode(api, version, args)| >= LIMIT + 4 ==> code != Success && c.outgoing == old(c.outgoing)
    ensures code == Success ==>
              (c.outgoing == old(c.outgoing) + Frame(Encode(api, version, args)) <==> HeaderWhole(old(c.writeScript)))
    ensures NoFailure(old(c.writeScript)) && HeaderWhole(old(c.writeScript)) && AllSupported(args)
            && |Encode(api, version, args)| < LIMIT
        ==> code == Success
  {
    hide EncodeArgs, MarshalCode, Header, LE, Settled, Written;
    var size;
    code, size := GetMarshalLength(args);
    if code != Success { return; }
    if size == 0 {
      ComputedLengthSuffices(args);
      MarshalCodeMeaning(args, 0);
      return InvalidParameter;
    }
    var request := new byte[size];
    code := Marshal.Marshal(api, version, args, request, size);
    ComputedLengthSuffices(args);
    MarshalCodeMeaning(args, size);
    if code != Success { return; }
    assert request[..] == Encode(api, version, args);
    code := WriteData(c, request[..]);
  }

  /** Reads one message and unmarshals it into the caller's specs. */
  method Receive(c: Connection, api: uint32, version: uint32, specs: array<Arg>) returns (r: Reading)
    requires specs.Length < DWORD_RANGE && RealScript(c.readScript)
    modifies c, specs
    ensures RealScript(c.readScript) && c.outgoing == old(c.outgoing) && c.writeScript == old(c.writeScript)
    ensures Tags(specs[..]) == old(Tags(specs[..]))
    ensures var (code, response, last) := Received(old(c.readScript), old(c.errno), old(c.incoming));
            if code != Success then r == Done(code)
            else match Decode(api, version, old(Tags(specs[..])), response)
              case Parsed(args, used) => r == Done(Success) && specs[..] == args
              case Invalid => r == Done(InvalidParameter)
              case Overrun => r == PastEnd
    ensures var (code, response, last) := Received(old(c.readScript), old(c.errno), old(c.incoming));
            var header := LE(api, 4) + LE(version, 4) + LE(specs.Length, 4);
            && (code == Success && |response| >= 12 && response[..12] != header ==>
                  r == Done(InvalidParameter) && specs[..] == old(specs[..]))
            && (r == Done(Success) ==> code == Success && header <= response)
    ensures NoFailure(old(c.readScript)) && HeaderWhole(old(c.readScript)) && HoldsFrame(old(c.incoming)) ==>
              var n := FromLE(old(c.incoming)[..4]);
              && c.incoming == old(c.incoming)[4 + n..]
              && match Decode(api, version, old(Tags(specs[..])), old(c.incoming)[4..4 + n])
                 case Parsed(args, used) => r == Done(Success) && specs[..] == args
                 case Invalid => r == Done(InvalidParameter)
                 case Overrun => r == PastEnd
  {
    hide Decode, Tags, FromLE, LE, Settled, Received;
    var code, response, lastChunk := ReadData(c);
    if code != Success { return Done(code); }
    var used;
    r, used := UnMarshal(api, version, response, lastChunk, specs);
    if HeaderWhole(old(c.readScript)) && HoldsFrame(old(c.incoming)) {
      FrameParts(old(c.incoming), response, c.incoming);
    }
  }

  lemma FrameParts(incoming: seq<byte>, data: seq<byte>, rest: seq<byte>)
    requires 0 < |data| < 0x1_0000_0000 && incoming == Frame(data) + rest
    ensures HoldsFrame(incoming) && FromLE(incoming[..4]) == |data|
    ensures incoming[4..4 + |data|] == data && incoming[4 + |data|..] == rest
  {
    FrameSplit(incoming, data, rest);
    hide FromLE, Frame;
    assert incoming[4..4 + |data|] == incoming[4..][..|data|];
    assert incoming[4 + |data|..] == incoming[4..][|data|..];
  }

  /** A message sent by one side and read by the other arrives with the same arguments, up to
      the canonical forms, for every pattern of interruptions and short transfers. */
  method Deliver(sender: Connection, receiver: Connection, api: uint32, version: uint32,
                 args: seq<Arg>, specs: array<Arg>)
    returns (code: Code, r: Reading)
    requires sender != receiver && specs.Length == |args| < DWORD_RANGE
    requires AllValid(args) && AllSupported(args) && Tags(specs[..]) == Tags(args)
    requires |Encode(api, version, args)| < LIMIT
    requires RealScript(sender.writeScript) && NoFailure(sender.writeScript) && HeaderWhole(sender.writeScript)
    requires RealScript(receiver.readScript) && NoFailure(receiver.readScript) && HeaderWhole(receiver.readScript)
    requires sender.outgoing == []
    modifies sender, receiver, specs
    ensures code == Success && r == Done(Success)
    ensures specs[..] == Canonical(args, 0)
    ensures receiver.incoming == []
  {
    hide Encode, Decode, Tags, Canonical, Settled, FromLE, LE;
    code := Send(sender, api, version, args);
    ghost var message := Encode(api, version, args);
    assert sender.outgoing == Frame(message);
    receiver.incoming := sender.outgoing;
    EncodeNotEmpty(api, version, args);
    assert Frame(message) + [] == Frame(message);
    FrameParts(receiver.incoming, message, []);
    r := Receive(receiver, api, version, specs);
    RoundTrip(api, version, args, []);
    assert message + [] == message;
  }

  lemma EncodeNotEmpty(api: uint32, version: uint32, args: seq<Arg>)
    requires |args| < DWORD_RANGE
    ensures |Encode(api, version, args)| >= 12
  {
  }

  /** VmDirLocalIPCRequest: the request goes out as version VER1_INPUT and the reply is taken
      as version VER1_OUTPUT of the same API. With a reply message waiting and no I/O failure
      the output specs hold the server's results. */
  method LocalIpcRequest(c: Connection, api: uint32, input: seq<Arg>, output: array<Arg>,
                         ghost results: seq<Arg>, ghost rest: seq<byte>)
    returns (r: Reading)
    requires |input| < DWORD_RANGE && AllValid(input)
    requires |results| == output.Length < DWORD_RANGE && AllValid(results)
    requires RealScript(c.writeScript) && RealScript(c.readScript)
    modifies c, output
    ensures !AllSupported(input) ==> r == Done(InvalidParameter) && c.outgoing == old(c.outgoing)
    ensures r == Done(Success) ==>
              (c.outgoing == old(c.outgoing) + Frame(Encode(api, 0, input)) <==> HeaderWhole(old(c.writeScript)))
    ensures r == Done(Success) ==>
              exists errno :: var (code, response, last) := Received(old(c.readScript), errno, old(c.incoming));
                              code == Success && LE(api, 4) + LE(1, 4) + LE(output.Length, 4) <= response
    ensures NoFailure(old(c.writeScript)) && HeaderWhole(old(c.writeScript)) && NoFailure(old(c.readScript)) && HeaderWhole(old(c.readScript))
            && AllSupported(input) && |Encode(api, 0, input)| < LIMIT
            && AllSupported(results) && |Encode(api, 1, results)| < LIMIT
            && old(Tags(output[..])) == Tags(results)
            && old(c.incoming) == Frame(Encode(api, 1, results)) + rest
        ==> r == Done(Success) && output[..] == Canonical(results, 0) && c.incoming == rest
  {
    hide Encode, Decode, Tags, Canonical, Settled, FromLE, LE, Frame, Received;
    var code := Send(c, api, VER1_INPUT, input);
    if code != Success { return Done(code); }
    ghost var reply := Encode(api, VER1_OUTPUT, results);
    EncodeNotEmpty(api, VER1_OUTPUT, results);
    if |reply| < LIMIT && c.incoming == Frame(reply) + rest {
      FrameParts(c.incoming, reply, rest);
    }
    ghost var errno := c.errno;
    r := Receive(c, api, VER1_OUTPUT, output);
    if AllSupported(results) {
      RoundTrip(api, VER1_OUTPUT, results, []);
      assert reply + [] == reply;
    }
  }
}
