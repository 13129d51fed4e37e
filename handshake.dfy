/**
 * The server side of the opening handshake of RFC 6455 (sections 1.3 and
 * 4.2.2) as the chat example computes it: the Sec-WebSocket-Accept value is
 * the base64 encoding, through OpenSSL's base64 filter, of the SHA-1 digest
 * of the client's Sec-WebSocket-Key followed by the protocol's fixed GUID.
 */
module Handshake {
  import opened Base64

  /** The GUID that section 1.3 of RFC 6455 appends to the client's key. */
  const WEBSOCKET_GUID: string := "258EAFA5-E914-47DA-95CA-C5AB0DC85B11"

  /** OpenSSL's SHA_DIGEST_LENGTH. */
  const SHA_DIGEST_LENGTH: nat := 20

  /** What OpenSSL's SHA1 produces: a digest of SHA_DIGEST_LENGTH octets. */
  type Digest = d: seq<byte> | |d| == SHA_DIGEST_LENGTH
    witness [0, 0, 0, 0, 0, 0, 0, 0, 0, 0, 0, 0, 0, 0, 0, 0, 0, 0, 0, 0]

  /** OpenSSL's base64 filter writes a line break after every 64 characters. */
  const LINE_LENGTH: nat := 64

  /** The characters of s with every '\n' removed. */
  function Unwrap(s: string): (r: string)
    ensures |r| <= |s|
    ensures '\n' !in r
    ensures '\n' !in s ==> r == s
  {
    if |s| == 0 then ""
    else if s[0] == '\n' then Unwrap(s[1..])
    else [s[0]] + Unwrap(s[1..])
  }

  lemma {:induction false} UnwrapAppend(a: string, b: string)
    ensures Unwrap(a + b) == Unwrap(a) + Unwrap(b)
    decreases |a|
  {
    if |a| == 0 {
      assert a + b == b;
    } else {
      var ab := a + b;
      assert ab[0] == a[0] && ab[1..] == a[1..] + b;
      UnwrapAppend(a[1..], b);
      if a[0] == '\n' {
        assert Unwrap(ab) == Unwrap(ab[1..]);
        assert Unwrap(a) == Unwrap(a[1..]);
      } else {
        assert Unwrap(ab) == [a[0]] + Unwrap(ab[1..]);
        assert Unwrap(a) == [a[0]] + Unwrap(a[1..]);
        assert [a[0]] + (Unwrap(a[1..]) + Unwrap(b)) == ([a[0]] + Unwrap(a[1..])) + Unwrap(b);
      }
    }
  }

  /**
   * What OpenSSL's base64 filter leaves in its memory buffer for an encoding s
   * once flushed: s cut into lines of LINE_LENGTH characters, each followed
   * by '\n'.
   */
  function BioLines(s: string): (r: string)
    ensures |s| == 0 <==> |r| == 0
    ensures |r| > 0 ==> r[|r| - 1] == '\n'
    ensures 0 < |s| <= LINE_LENGTH ==> r == s + "\n"
    decreases |s|
  {
    if |s| == 0 then ""
    else if |s| <= LINE_LENGTH then s + "\n"
    else s[..LINE_LENGTH] + "\n" + BioLines(s[LINE_LENGTH..])
  }

  /** The line breaks are all the filter adds. */
  lemma {:induction false} UnwrapBioLines(s: string)
    ensures Unwrap(BioLines(s)) == Unwrap(s)
    decreases |s|
  {
    if 0 < |s| <= LINE_LENGTH {
      UnwrapAppend(s, "\n");
    } else if |s| > LINE_LENGTH {
      var head, tail := s[..LINE_LENGTH], s[LINE_LENGTH..];
      UnwrapBioLines(tail);
      UnwrapAppend(head + "\n", BioLines(tail));
      UnwrapAppend(head, "\n");
      UnwrapAppend(head, tail);
      assert s == head + tail;
    }
  }

  lemma NoLineBreakInEncoding(b: seq<byte>)
    ensures '\n' !in Encode(b)
  {
    EncodeShape(b);
    var s := Encode(b);
    assert forall i :: 0 <= i < |s| ==> s[i] != '\n';
  }

  lemma DropLastLineBreak(out: string)
    requires |out| > 0 && out[|out| - 1] == '\n'
    ensures Unwrap(out[..|out| - 1]) == Unwrap(out)
  {
    assert out == out[..|out| - 1] + "\n";
    UnwrapAppend(out[..|out| - 1], "\n");
  }

  /**
   * base64_encode of the example: the filter's output with its final byte (the
   * trailing '\n') cut off.  For an empty input the buffer is empty and the
   * C code would copy length - 1 bytes, so that input is excluded.
   */
  function Base64Encode(input: seq<byte>): (r: string)
    requires |input| > 0
    ensures Unwrap(r) == Encode(input)
    ensures |input| <= 48 ==> r == Encode(input)
  {
    var s := Encode(input);
    var out := BioLines(s);
    assert Unwrap(out[..|out| - 1]) == s by {
      DropLastLineBreak(out);
      UnwrapBioLines(s);
      NoLineBreakInEncoding(input);
    }
    assert |input| <= 48 ==> out[..|out| - 1] == s by {
      if |input| <= 48 {
        assert out == s + "\n";
      }
    }
    out[..|out| - 1]
  }

  /** The accept value of a 20-octet digest: 28 characters, one '=' at the end. */
  lemma DigestEncoding(d: Digest)
    ensures var s := Base64Encode(d);
      |s| == 28 && s[27] == PAD && forall i :: 0 <= i < 27 ==> IsAlphabet(s[i])
  {
    EncodeShape(d);
  }

  datatype Header = Header(name: string, value: string)

  /** The part of a restbed Request the handshake reads: its header fields, in order. */
  datatype Request = Request(headers: seq<Header>)

  /** The position of the first header called name, or |headers| when there is none. */
  function FirstIndex(headers: seq<Header>, name: string): (k: nat)
    ensures k <= |headers|
    ensures forall j :: 0 <= j < k ==> headers[j].name != name
    ensures k < |headers| ==> headers[k].name == name
  {
    if |headers| == 0 then 0
    else if headers[0].name == name then 0
    else 1 + FirstIndex(headers[1..], name)
  }

  /** Request::get_header with its default: the first value of name, or "". */
  function GetHeader(request: Request, name: string): (value: string)
    ensures (forall h :: h in request.headers ==> h.name != name) ==> value == ""
    ensures forall k :: 0 <= k < |request.headers| && request.headers[k].name == name &&
                        (forall j :: 0 <= j < k ==> request.headers[j].name != name)
                    ==> value == request.headers[k].value
  {
    var k := FirstIndex(request.headers, name);
    if k < |request.headers| then request.headers[k].value else ""
  }

  /**
   * The Sec-WebSocket-Accept value for a client key, given SHA-1: it decodes
   * to exactly the digest of key ++ GUID, and has the length and padding of a
   * 20-octet encoding.
   */
  function AcceptValue(key: string, sha1: string -> Digest): (accept: string)
    ensures Decode(accept) == Some(sha1(key + WEBSOCKET_GUID))
    ensures |accept| == 28 && accept[27] == PAD && forall i :: 0 <= i < 27 ==> IsAlphabet(accept[i])
  {
    var digest := sha1(key + WEBSOCKET_GUID);
    DigestEncoding(digest);
    DecodeEncode(digest);
    Base64Encode(digest)
  }

  /** std::string's operator<: lexicographic order of characters. */
  predicate Less(a: string, b: string) {
    if |a| == 0 then |b| > 0
    else if |b| == 0 then false
    else a[0] < b[0] || (a[0] == b[0] && Less(a[1..], b[1..]))
  }

  /**
   * build_websocket_handshake_response_headers: a multimap, held here in its
   * iteration order (by header name).  There is no rejection path; a request
   * without Sec-WebSocket-Key is answered from the empty key.
   */
  function BuildResponseHeaders(request: Request, sha1: string -> Digest): (headers: seq<Header>)
    ensures |headers| == 3
    ensures forall i, j :: 0 <= i < j < |headers| ==> Less(headers[i].name, headers[j].name)
    ensures Header("Upgrade", "websocket") in headers
    ensures Header("Connection", "Upgrade") in headers
    ensures Header("Sec-WebSocket-Accept", AcceptValue(GetHeader(request, "Sec-WebSocket-Key"), sha1)) in headers
  {
    var accept := AcceptValue(GetHeader(request, "Sec-WebSocket-Key"), sha1);
    [Header("Connection", "Upgrade"), Header("Sec-WebSocket-Accept", accept), Header("Upgrade", "websocket")]
  }

  /** The accept value depends on the request only through its key header. */
  lemma ResponseDependsOnlyOnKey(r1: Request, r2: Request, sha1: string -> Digest)
    requires GetHeader(r1, "Sec-WebSocket-Key") == GetHeader(r2, "Sec-WebSocket-Key")
    ensures BuildResponseHeaders(r1, sha1) == BuildResponseHeaders(r2, sha1)
  {
  }

  /** A request with no key still gets an upgrade response, computed from the GUID alone. */
  lemma MissingKeyIsNotRejected(request: Request, sha1: string -> Digest)
    requires forall h :: h in request.headers ==> h.name != "Sec-WebSocket-Key"
    ensures Header("Sec-WebSocket-Accept", Base64Encode(sha1(WEBSOCKET_GUID))) in BuildResponseHeaders(request, sha1)
  {
    assert "" + WEBSOCKET_GUID == WEBSOCKET_GUID;
  }
}
