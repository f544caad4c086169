/** Request signing of vmcommon/vmhttpclient.c with the trimming and hex helpers of
    vmcommon/vmstring.c and vmcommon/vmutil.c; digest and RSA are parameters. */
module SignedRequest {
  import opened Bytes
  import opened Text

  // ---------------------------------------------------------------- trimming

  predicate Space(c: char) { c == ' ' || c == '\t' || c == '\n' || c == '\r' }

  predicate AllSpace(s: string) { forall i :: 0 <= i < |s| ==> Space(s[i]) }

  function TrimLeft(s: string): string {
    if s == "" || !Space(s[0]) then s else TrimLeft(s[1..])
  }

  function TrimRight(s: string): string {
    if s == "" || !Space(s[|s| - 1]) then s else TrimRight(s[..|s| - 1])
  }

  function Trimmed(s: string): string { TrimRight(TrimLeft(s)) }

  /** `t` is what remains of `s` without the blanks at its ends. */
  predicate IsTrim(s: string, t: string, from: nat) {
    && from + |t| <= |s| && t == s[from..from + |t|]
    && AllSpace(s[..from]) && AllSpace(s[from + |t|..])
    && (t != "" ==> !Space(t[0]) && !Space(t[|t| - 1]))
  }

  lemma {:induction false} TrimLeftOf(s: string, from: nat)
    requires from <= |s| && AllSpace(s[..from]) && (from < |s| ==> !Space(s[from]))
    ensures TrimLeft(s) == s[from..]
  {
    if from > 0 {
      assert Space(s[..from][0]);
      assert s[1..][..from - 1] == s[..from][1..];
      TrimLeftOf(s[1..], from - 1);
      assert s[1..][from - 1..] == s[from..];
    }
  }

  lemma {:induction false} TrimRightOf(s: string, to: nat)
    requires to <= |s| && AllSpace(s[to..]) && (to > 0 ==> !Space(s[to - 1]))
    ensures TrimRight(s) == s[..to]
  {
    if to < |s| {
      assert Space(s[to..][|s| - 1 - to]);
      assert s[..|s| - 1][to..] == s[to..][..|s| - 1 - to];
      TrimRightOf(s[..|s| - 1], to);
      assert s[..|s| - 1][..to] == s[..to];
    }
  }

  /** Trimming is the only way to cut the blank ends off. */
  lemma TrimIsUnique(s: string, t: string, from: nat)
    requires IsTrim(s, t, from)
    ensures Trimmed(s) == t
  {
    if t == "" {
      assert s == s[..from] + s[from..];
      assert AllSpace(s);
      assert s[..|s|] == s;
      TrimLeftOf(s, |s|);
    } else {
      assert s[from] == t[0];
      TrimLeftOf(s, from);
      var r := s[from..];
      assert r[..|t|] == t;
      assert |r[|t|..]| == |s[from + |t|..]| && forall i :: 0 <= i < |r[|t|..]| ==> r[|t|..][i] == s[from + |t|..][i];
      TrimRightOf(r, |t|);
    }
  }

  /** What is cut off are blanks, tabs and line ends, and what remains neither starts nor ends
      with one. */
  lemma TrimmedMeaning(s: string) returns (from: nat)
    ensures from + |Trimmed(s)| <= |s| && Trimmed(s) == s[from..from + |Trimmed(s)|]
    ensures forall i :: 0 <= i < |s| && !(from <= i < from + |Trimmed(s)|) ==> s[i] in " \t\n\r"
    ensures Trimmed(s) != "" ==> Trimmed(s)[0] !in " \t\n\r" && Trimmed(s)[|Trimmed(s)| - 1] !in " \t\n\r"
  {
    SpaceMeaning();
    hide Space;
    from := LeftCut(s);
    var r := TrimLeft(s);
    var to := RightCut(r);
    assert forall i :: 0 <= i < |r| ==> r[i] == s[from + i];
    assert forall i :: 0 <= i < |s| && i < from ==> Space(s[i]);
    assert forall i :: from + to <= i < |s| ==> s[i] == r[i - from];
  }

  lemma SpaceMeaning()
    ensures forall c: char :: Space(c) <==> c in " \t\n\r"
  {
  }

  lemma {:induction false} LeftCut(s: string) returns (from: nat)
    ensures from <= |s| && TrimLeft(s) == s[from..] && (forall i :: 0 <= i < from ==> Space(s[i]))
    ensures from < |s| ==> !Space(s[from])
  {
    from := 0;
    if s != "" && Space(s[0]) {
      var k := LeftCut(s[1..]);
      from := k + 1;
      assert forall i :: 0 < i < from ==> s[i] == s[1..][i - 1];
    }
  }

  lemma {:induction false} RightCut(s: string) returns (to: nat)
    ensures to <= |s| && TrimRight(s) == s[..to] && (forall i :: to <= i < |s| ==> Space(s[i]))
    ensures to > 0 ==> !Space(s[to - 1])
  {
    to := |s|;
    if s != "" && Space(s[|s| - 1]) {
      to := RightCut(s[..|s| - 1]);
      assert forall i :: 0 <= i < |s| - 1 ==> s[i] == s[..|s| - 1][i];
    }
  }

  /** VmStringTrimSpace: shifts the text between the blanks to the front, in place. */
  method TrimSpace(buf: array<char>, len: nat) returns (n: nat)
    requires len < buf.Length && buf[len] == '\0'
    modifies buf
    ensures n <= len && buf[..n] == Trimmed(old(buf[..len])) && buf[n] == '\0'
  {
    ghost var s := buf[..len];
    if len == 0 {
      assert buf[..0] == Trimmed(s);
      return 0;
    }
    var start, end := BlankEnds(buf, len);
    hide Trimmed, AllSpace, Space;
    n := 0;
    var i := start;
    while i <= end
      invariant start <= i && n == i - start && (i <= end + 1 || i == start)
      invariant forall k :: 0 <= k < n ==> buf[k] == s[start + k]
      invariant forall k :: i <= k < len ==> buf[k] == s[k]
      invariant n <= len
    {
      buf[n] := buf[i];
      i := i + 1;
      n := n + 1;
    }
    buf[n] := '\0';
    TrimFound(s, start, end, buf[..n]);
  }

  /** The first scan stops at a non-blank or the end, the second at a non-blank or the front. */
  method BlankEnds(buf: array<char>, len: nat) returns (start: nat, end: nat)
    requires 0 < len < buf.Length
    ensures start <= len && AllSpace(buf[..len][..start]) && (start < len ==> !Space(buf[start]))
    ensures end < len && AllSpace(buf[..len][end + 1..]) && (end == 0 || !Space(buf[end]))
  {
    start := 0;
    while start < len && Space(buf[start])
      invariant start <= len && AllSpace(buf[..len][..start])
    {
      start := start + 1;
    }
    end := len - 1;
    while end > 0 && Space(buf[end])
      invariant 0 <= end < len && AllSpace(buf[..len][end + 1..])
    {
      end := end - 1;
    }
  }

  lemma TrimFound(s: string, start: nat, end: nat, t: string)
    requires s != "" && start <= |s| && AllSpace(s[..start]) && (start < |s| ==> !Space(s[start]))
    requires end < |s| && AllSpace(s[end + 1..]) && (end == 0 || !Space(s[end]))
    requires t == if start <= end then s[start..end + 1] else ""
    ensures Trimmed(s) == t
  {
    if start == |s| {
      assert s[..start] == s;
      assert IsTrim(s, "", 0);
      TrimIsUnique(s, "", 0);
    } else {
      assert start <= end;
      assert IsTrim(s, t, start);
      TrimIsUnique(s, t, start);
    }
  }

  lemma TrimmedEmptyIff(s: string)
    ensures Trimmed(s) == "" <==> AllSpace(s)
  {
    if AllSpace(s) {
      assert s[..|s|] == s;
      TrimLeftOf(s, |s|);
    } else {
      NonSpaceLeft(s);
      NonSpaceRight(TrimLeft(s));
    }
  }

  lemma {:induction false} NonSpaceLeft(s: string)
    requires !AllSpace(s)
    ensures !AllSpace(TrimLeft(s))
  {
    if Space(s[0]) {
      var i :| 0 <= i < |s| && !Space(s[i]);
      assert s[1..][i - 1] == s[i];
      NonSpaceLeft(s[1..]);
    }
  }

  lemma {:induction false} NonSpaceRight(s: string)
    requires !AllSpace(s)
    ensures TrimRight(s) != ""
  {
    if Space(s[|s| - 1]) {
      var i :| 0 <= i < |s| && !Space(s[i]);
      assert s[..|s| - 1][i] == s[i];
      NonSpaceRight(s[..|s| - 1]);
    }
  }

  // ---------------------------------------------------------------- hex, section 8 of RFC 4648

  function HexDigit(v: nat): char
    requires v < 16
  {
    if v < 10 then ('0' as int + v) as char else ('a' as int + v - 10) as char
  }

  function Hex(data: seq<byte>): (h: string)
    ensures |h| == 2 * |data|
  {
    if data == [] then "" else [HexDigit(data[0] / 16), HexDigit(data[0] % 16)] + Hex(data[1..])
  }

  /** The digit's value, or None for another character. */
  function HexValue(c: char): Option<nat> {
    if '0' <= c <= '9' then Some(c as int - '0' as int)
    else if 'a' <= c <= 'f' then Some(c as int - 'a' as int + 10)
    else if 'A' <= c <= 'F' then Some(c as int - 'A' as int + 10)
    else None
  }

  /** (unsigned char)strtoul of two characters in base 16: leading blanks and a sign are skipped,
      the number ends at the first other character. */
  function TwoChars(c: char, d: char): byte {
    match HexValue(c)
    case Some(x) => if HexValue(d).Some? then (16 * x + HexValue(d).value) % 256 else x % 256
    case None =>
      if HexValue(d) == None then 0
      else if Space(c) || c as int == 11 || c as int == 12 || c == '+' then HexValue(d).value % 256
      else if c == '-' then (256 - HexValue(d).value) % 256
      else 0
  }

  const LOWER_DIGITS: string := "0123456789abcdef"
  const UPPER_DIGITS: string := "0123456789ABCDEF"

  /** A character has a value exactly when it is a digit of either case, and then its place. */
  lemma HexValueMeaning(c: char, v: nat)
    ensures HexValue(c) == Some(v) <==> v < 16 && (c == LOWER_DIGITS[v] || c == UPPER_DIGITS[v])
    ensures v < 16 ==> HexDigit(v) == LOWER_DIGITS[v]
  {
  }

  /** The leading digits of a text in base 16, behind `value` read already. */
  function HexNumber(s: string, value: nat): nat {
    if s == "" || HexValue(s[0]) == None then value else HexNumber(s[1..], 16 * value + HexValue(s[0]).value)
  }

  /** strtoul in base 16: blanks, an optional sign that negates in 64 bits, digits. */
  function Strtoul(s: string): nat {
    if s == "" then 0
    else if s[0] == ' ' || 9 <= s[0] as int <= 13 then Strtoul(s[1..])
    else if s[0] == '-' then (0x1_0000_0000_0000_0000 - HexNumber(s[1..], 0)) % 0x1_0000_0000_0000_0000
    else if s[0] == '+' then HexNumber(s[1..], 0)
    else HexNumber(s, 0)
  }

  /** The case distinction for two characters is what strtoul makes of them, cut to a byte. */
  lemma TwoCharsMeaning(c: char, d: char)
    ensures TwoChars(c, d) == Strtoul([c, d]) % 256
  {
    SignsNoDigits(c);
    SignsNoDigits(d);
    OneChar(d, 0);
    OneChar(d, if HexValue(c).Some? then HexValue(c).value else 0);
    OneCharNumber(d);
    assert [c, d][1..] == [d];
    assert HexNumber([c, d], 0) == if HexValue(c) == None then 0 else HexNumber([d], HexValue(c).value);
    hide HexValue;
  }

  lemma SignsNoDigits(c: char)
    ensures c == '+' || c == '-' || c == ' ' || 9 <= c as int <= 13 ==> HexValue(c) == None
    ensures HexValue(c).Some? ==> HexValue(c).value < 16
  {
  }

  lemma OneChar(d: char, v: nat)
    ensures HexNumber([d], v) == if HexValue(d).Some? then 16 * v + HexValue(d).value else v
  {
    assert [d][1..] == "";
  }

  lemma OneCharNumber(d: char)
    ensures Strtoul([d]) == if HexValue(d).Some? then HexValue(d).value else 0
  {
    SignsNoDigits(d);
    OneChar(d, 0);
    assert [d][1..] == "" && HexNumber("", 0) == 0 && Strtoul("") == 0;
    hide HexValue;
  }

  /** VmSignatureEncodeHex. */
  method EncodeHex(data: seq<byte>) returns (hex: string)
    ensures hex == Hex(data)
  {
    hex := "";
    for i := 0 to |data|
      invariant hex + Hex(data[i..]) == Hex(data)
    {
      assert data[i..][1..] == data[i + 1..];
      hex := hex + [HexDigit(data[i] / 16), HexDigit(data[i] % 16)];
    }
  }

  function Decoded(hex: string): (data: seq<byte>)
    requires |hex| % 2 == 0
    ensures |data| == |hex| / 2
  {
    if hex == "" then [] else [TwoChars(hex[0], hex[1])] + Decoded(hex[2..])
  }

  /** VmSignatureDecodeHex: empty and odd-length texts are refused, anything else is decoded. */
  method DecodeHex(hex: string) returns (data: Option<seq<byte>>)
    ensures data == if hex == "" || |hex| % 2 == 1 then None else Some(Decoded(hex))
  {
    hide TwoChars, Decoded;
    if hex == "" || |hex| % 2 == 1 { return None; }
    var out := [];
    for i := 0 to |hex| / 2
      invariant |out| == i && out == Decoded(hex)[..i]
    {
      DecodedAt(hex, i);
      out := out + [TwoChars(hex[2 * i], hex[2 * i + 1])];
    }
    assert Decoded(hex)[..|hex| / 2] == Decoded(hex);
    data := Some(out);
  }

  lemma {:induction false} DecodedAt(hex: string, i: nat)
    requires |hex| % 2 == 0 && i < |hex| / 2
    ensures Decoded(hex)[i] == TwoChars(hex[2 * i], hex[2 * i + 1])
  {
    hide TwoChars;
    if i > 0 { DecodedAt(hex[2..], i - 1); }
  }

  lemma {:induction false} DecodedOfHex(data: seq<byte>)
    ensures Decoded(Hex(data)) == data
  {
    hide TwoChars, HexDigit;
    if data != [] {
      assert Hex(data)[2..] == Hex(data[1..]);
      DecodedOfHex(data[1..]);
      TwoDigits(data[0]);
    }
  }

  lemma TwoDigits(b: byte)
    ensures TwoChars(HexDigit(b / 16), HexDigit(b % 16)) == b
  {
    HexDigitValue(b / 16);
    HexDigitValue(b % 16);
    hide HexDigit, HexValue;
  }

  lemma HexDigitValue(v: nat)
    requires v < 16
    ensures HexValue(HexDigit(v)) == Some(v)
  {
  }

  // ---------------------------------------------------------------- signing and verifying

  /** The cryptographic library: SHA-256 of a text, RSA signature of a text under a private key,
      and its verification under a public key. */
  datatype Crypto = Crypto(digest: string -> seq<byte>, sign: (string, string) -> seq<byte>,
                           verify: (string, string, seq<byte>) -> bool)

  datatype Method = Get | Post | Put | Delete | Patch | Unsupported

  /** The error code; VmHttpClientVerifySignedRequest logs VM_COMMON_ERROR_BAD_AUTH_DATA but never returns it. */
  datatype Outcome = Done | BadParameter | UnsupportedMethod

  const JSON: string := "application/json"

  /** VmHttpGetRequestMethodInString. */
  function MethodText(m: Method): Option<string> {
    match m
    case Get => Some("GET")
    case Post => Some("POST")
    case Put => Some("PUT")
    case Delete => Some("DELETE")
    case Patch => Some("PATCH")
    case Unsupported => None
  }

  /** The method names of section 4 of RFC 7231 and of RFC 5789; each belongs to one method. */
  lemma MethodNames(m: Method)
    ensures m.Unsupported? <==> MethodText(m) == None
    ensures (m.Get? <==> MethodText(m) == Some("GET")) && (m.Post? <==> MethodText(m) == Some("POST"))
    ensures (m.Put? <==> MethodText(m) == Some("PUT")) && (m.Delete? <==> MethodText(m) == Some("DELETE"))
    ensures m.Patch? <==> MethodText(m) == Some("PATCH")
  {
  }

  /** _VmHttpBuildStringToSign; None when a required part is missing. */
  function StringToSign(verb: string, bodyHash: string, contentType: string, time: string, uri: string): Option<string> {
    if verb == "" || contentType == "" || time == "" || uri == "" then None
    else Some(verb + "\n" + bodyHash + "\n" + contentType + "\n" + time + "\n" + uri)
  }

  /** The signer hashes a body that is not blank. */
  function SignerHash(c: Crypto, body: string): string {
    if Trimmed(body) == "" then "" else Hex(c.digest(Trimmed(body)))
  }

  /** The verifier hashes a body that is not empty. */
  function VerifierHash(c: Crypto, body: string): string {
    if body == "" then "" else Hex(c.digest(Trimmed(body)))
  }

  /** What VmHttpClientSignRequest returns. */
  function SignatureOf(c: Crypto, m: Method, uri: string, body: string, privateKey: string, time: string): (Outcome, string) {
    if uri == "" || privateKey == "" || time == "" then (BadParameter, "")
    else if MethodText(m) == None then (UnsupportedMethod, "")
    else match StringToSign(MethodText(m).value, SignerHash(c, body), JSON, time, uri)
      case None => (BadParameter, "")
      case Some(text) => (Done, Hex(c.sign(privateKey, text)))
  }

  /** The code that VmHttpClientVerifySignedRequest returns and the flag it sets. Missing
      authorization data and a signature that does not match leave the code at success. */
  function Verification(c: Crypto, verb: string, body: string, contentType: string, time: string, uri: string,
                        signature: string, publicKey: string): (Outcome, bool)
  {
    if publicKey == "" || signature == "" then (Done, false)
    else if |signature| % 2 == 1 then (BadParameter, false)
    else if contentType == "" || time == "" then (Done, false)
    else match StringToSign(verb, VerifierHash(c, body), contentType, time, uri)
      case None => (BadParameter, false)
      case Some(text) => (Done, c.verify(publicKey, text, Decoded(signature)))
  }

  /** A copy of a C string, trimmed in place. */
  method TrimmedCopy(body: string) returns (t: string)
    ensures t == Trimmed(body)
  {
    var buf := new char[|body| + 1];
    forall i | 0 <= i < |body| { buf[i] := body[i]; }
    buf[|body|] := '\0';
    assert buf[..|body|] == body;
    var n := TrimSpace(buf, |body|);
    t := buf[..n];
  }

  /** VmHttpClientSignRequest; a NULL body is signed like an empty one. */
  method SignRequest(c: Crypto, m: Method, uri: string, body: Option<string>, privateKey: string, time: string)
    returns (code: Outcome, signature: string)
    ensures (code, signature) == SignatureOf(c, m, uri, if body.Some? then body.value else "", privateKey, time)
  {
    hide Trimmed, Hex, StringToSign;
    if uri == "" || privateKey == "" || time == "" { return BadParameter, ""; }
    var verb := MethodText(m);
    if verb == None { return UnsupportedMethod, ""; }
    var trimmed := TrimmedCopy(if body.Some? then body.value else "");
    var hash := "";
    if trimmed != "" { hash := EncodeHex(c.digest(trimmed)); }
    var text := StringToSign(verb.value, hash, JSON, time, uri);
    if text == None { return BadParameter, ""; }
    signature := EncodeHex(c.sign(privateKey, text.value));
    code := Done;
  }

  /** VmHttpClientVerifySignedRequest. */
  method VerifySignedRequest(c: Crypto, verb: string, body: string, contentType: string, time: string, uri: string,
                             signature: string, publicKey: string)
    returns (code: Outcome, verified: bool)
    ensures (code, verified) == Verification(c, verb, body, contentType, time, uri, signature, publicKey)
  {
    hide Trimmed, Hex, StringToSign, Decoded;
    verified := false;
    if publicKey == "" || signature == "" { return Done, false; }
    var raw := DecodeHex(signature);
    if raw == None { return BadParameter, false; }
    if contentType == "" || time == "" { return Done, false; }
    var hash := "";
    if body != "" {
      var trimmed := TrimmedCopy(body);
      hash := EncodeHex(c.digest(trimmed));
    }
    var text := StringToSign(verb, hash, contentType, time, uri);
    if text == None { return BadParameter, false; }
    code, verified := Done, c.verify(publicKey, text.value, raw.value);
  }

  /** The verifier reports an error exactly for an odd signature or a missing verb or URI, and
      only where the checks before those have passed; an error leaves the flag unset. */
  lemma ErrorReported(c: Crypto, verb: string, body: string, contentType: string, time: string, uri: string,
                      signature: string, publicKey: string)
    ensures var (code, verified) := Verification(c, verb, body, contentType, time, uri, signature, publicKey);
            && (code != Done <==>
                  && publicKey != "" && signature != ""
                  && (|signature| % 2 == 1 || (contentType != "" && time != "" && (verb == "" || uri == ""))))
            && (code != Done ==> !verified)
  {
  }

  /** A request that the key does not match fails to verify without an error. */
  lemma FailureWithoutError(c: Crypto)
    requires forall text, raw :: !c.verify("key", text, raw)
    ensures Verification(c, "GET", "", JSON, "now", "/", "00", "key") == (Done, false)
  {
  }

  /** The two keys belong together: a signature is not empty and verifies exactly for the text it
      was made from. Digests are not empty either. */
  ghost predicate KeyPair(c: Crypto, privateKey: string, publicKey: string) {
    && privateKey != "" && publicKey != ""
    && (forall text :: c.sign(privateKey, text) != [])
    && (forall text, other :: c.verify(publicKey, other, c.sign(privateKey, text)) <==> other == text)
    && (forall text :: c.digest(text) != [])
  }

  lemma HashesAgree(c: Crypto, body: string)
    requires c.digest(Trimmed(body)) != []
    ensures SignerHash(c, body) == VerifierHash(c, body) <==> body == "" || !AllSpace(body)
  {
    TrimmedEmptyIff(body);
    hide Trimmed;
    HexNotEmpty(c.digest(Trimmed(body)));
    hide Hex;
    if body == "" { assert AllSpace(body); }
  }

  lemma HexNotEmpty(data: seq<byte>)
    requires data != []
    ensures Hex(data) != ""
  {
  }

  lemma SameTextSameHash(verb: string, h: string, g: string, contentType: string, time: string, uri: string)
    requires verb != "" && contentType != "" && time != "" && uri != ""
    requires h == g || |h| != |g|
    ensures StringToSign(verb, h, contentType, time, uri) == StringToSign(verb, g, contentType, time, uri) <==> h == g
  {
    if h != g {
      assert |StringToSign(verb, h, contentType, time, uri).value| != |StringToSign(verb, g, contentType, time, uri).value|;
    }
  }

  /** For every JSON request that the client signs, the verifier with the same method, time and
      URI returns no error and sets the flag exactly when the body is empty or holds a character
      that is not blank. */
  lemma SignedVerifies(c: Crypto, m: Method, uri: string, body: string, privateKey: string, publicKey: string, time: string)
    requires KeyPair(c, privateKey, publicKey) && uri != "" && time != "" && MethodText(m).Some?
    ensures SignatureOf(c, m, uri, body, privateKey, time).0 == Done
    ensures Verification(c, MethodText(m).value, body, JSON, time, uri, SignatureOf(c, m, uri, body, privateKey, time).1, publicKey)
         == (Done, body == "" || !AllSpace(body))
  {
    var verb := MethodText(m).value;
    assert verb != "";
    HashesAgree(c, body);
    HashesDiffer(c, body);
    var h, g := SignerHash(c, body), VerifierHash(c, body);
    SameTextSameHash(verb, h, g, JSON, time, uri);
    hide SignerHash, VerifierHash, AllSpace, MethodText;
    var text := StringToSign(verb, h, JSON, time, uri).value;
    var raw := c.sign(privateKey, text);
    HexNotEmpty(raw);
    DecodedOfHex(raw);
    hide Hex, Decoded, StringToSign;
  }

  lemma HashesDiffer(c: Crypto, body: string)
    requires c.digest(Trimmed(body)) != []
    ensures SignerHash(c, body) == VerifierHash(c, body) || |SignerHash(c, body)| != |VerifierHash(c, body)|
  {
    TrimmedEmptyIff(body);
    hide Trimmed;
    HexNotEmpty(c.digest(Trimmed(body)));
    hide Hex;
  }

  // ---------------------------------------------------------------- what a signature covers

  lemma {:induction false} HexClean(data: seq<byte>)
    ensures '\n' !in Hex(data)
  {
    if data != [] { HexClean(data[1..]); }
  }

  /** The text to sign with its parts cut off from the front. */
  lemma TextParts(verb: string, hash: string, contentType: string, time: string, uri: string)
    requires verb != "" && contentType != "" && time != "" && uri != ""
    ensures StringToSign(verb, hash, contentType, time, uri)
         == Some(verb + ['\n'] + (hash + ['\n'] + (contentType + ['\n'] + (time + ['\n'] + uri))))
  {
    var n := "\n";
    assert n == ['\n'];
    Regrouped(contentType, n, time, n, uri);
    Regrouped(hash, n, contentType, n, time + n + uri);
    Regrouped(verb, n, hash, n, contentType + n + (time + n + uri));
    assert verb + n + hash + n + contentType + n + time + n + uri
        == verb + n + hash + n + (contentType + n + time + n + uri);
  }

  lemma Regrouped(a: string, b: string, c: string, d: string, e: string)
    ensures a + b + c + d + e == a + b + (c + d + e)
  {
  }

  /** Texts of parts without newlines agree exactly when all parts do. */
  lemma TextDetermines(verb: string, hash: string, contentType: string, time: string, uri: string,
                       verb': string, hash': string, contentType': string, time': string, uri': string)
    requires verb != "" && contentType != "" && time != "" && uri != ""
    requires verb' != "" && contentType' != "" && time' != "" && uri' != ""
    requires '\n' !in verb && '\n' !in hash && '\n' !in contentType && '\n' !in time
    requires '\n' !in verb' && '\n' !in hash' && '\n' !in contentType' && '\n' !in time'
    ensures StringToSign(verb, hash, contentType, time, uri) == StringToSign(verb', hash', contentType', time', uri')
       <==> verb == verb' && hash == hash' && contentType == contentType' && time == time' && uri == uri'
  {
    TextParts(verb, hash, contentType, time, uri);
    TextParts(verb', hash', contentType', time', uri');
    hide StringToSign;
    var t3, t3' := time + ['\n'] + uri, time' + ['\n'] + uri';
    var t2, t2' := contentType + ['\n'] + t3, contentType' + ['\n'] + t3';
    var t1, t1' := hash + ['\n'] + t2, hash' + ['\n'] + t2';
    CutUnique(verb, t1, verb', t1', '\n');
    CutUnique(hash, t2, hash', t2', '\n');
    CutUnique(contentType, t3, contentType', t3', '\n');
    CutUnique(time, uri, time', uri', '\n');
  }

  lemma VerbClean(m: Method)
    requires MethodText(m).Some?
    ensures MethodText(m).value != "" && '\n' !in MethodText(m).value && '\n' !in JSON && JSON != ""
  {
  }

  lemma HashesClean(c: Crypto, body: string, body': string)
    ensures '\n' !in SignerHash(c, body) && '\n' !in VerifierHash(c, body')
  {
    HexClean(c.digest(Trimmed(body)));
    HexClean(c.digest(Trimmed(body')));
    hide Hex, Trimmed;
  }

  /** A signature verifies for another request exactly when that has the same verb, content type,
      time, URI and body hash: none of the five can be exchanged for another without a newline. */
  lemma SignatureBinds(c: Crypto, m: Method, uri: string, body: string, privateKey: string, publicKey: string, time: string,
                       verb': string, body': string, contentType': string, time': string, uri': string)
    requires KeyPair(c, privateKey, publicKey) && uri != "" && time != "" && MethodText(m).Some?
    requires '\n' !in time && '\n' !in verb' && '\n' !in contentType' && '\n' !in time'
    ensures Verification(c, verb', body', contentType', time', uri', SignatureOf(c, m, uri, body, privateKey, time).1, publicKey).1
       <==> && verb' == MethodText(m).value && contentType' == "application/json" && time' == time && uri' == uri
            && VerifierHash(c, body') == SignerHash(c, body)
  {
    var verb := MethodText(m).value;
    VerbClean(m);
    HashesClean(c, body, body');
    hide SignerHash, VerifierHash, MethodText;
    var h, g := SignerHash(c, body), VerifierHash(c, body');
    var text := StringToSign(verb, h, JSON, time, uri).value;
    var raw := c.sign(privateKey, text);
    HexNotEmpty(raw);
    DecodedOfHex(raw);
    if verb' != "" && contentType' != "" && time' != "" && uri' != "" {
      TextDetermines(verb, h, JSON, time, uri, verb', g, contentType', time', uri');
    }
    hide Hex, Decoded;
  }
}
