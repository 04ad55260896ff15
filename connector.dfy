/**
 * The HTTP client the gateway uses to reach a storage node
 * (StorageConnector/connector.go): connection and handler validation, the
 * request URLs, and how a reply becomes a result or an error. The HTTP
 * round trip itself is a parameter: a function from the request sent to the
 * reply received.
 */
module Connector {
  import opened Common

  // Consistency policies (the iota constants, starting at 1).
  const NO_GUARANTEE: int := 1
  const WEAK_CONSISTENCY: int := 2
  const STRONG_CONSISTENCY: int := 3

  datatype BasicStorageConnection = BasicStorageConnection(addr: Bytes, consistencyPolicy: int)

  const CONN_ADDR_EMPTY: Bytes := Ascii("connection addr is empty")
  const HANDLER_INVALID: Bytes := Ascii("Handler should be 64 bytes long.")
  const OCTET_STREAM: Bytes := Ascii("application/octet-stream")

  /** The error of a connection, if any; both checks report the same message. */
  function ValidateBasicStorageConnection(conn: BasicStorageConnection): (err: Option<Bytes>)
    ensures err.Some? <==> conn.addr == [] || conn.consistencyPolicy == 0
    ensures err.Some? ==> err.value == CONN_ADDR_EMPTY
  {
    if conn.addr == [] then Some(CONN_ADDR_EMPTY)
    else if conn.consistencyPolicy == 0 then Some(CONN_ADDR_EMPTY)
    else None
  }

  function ValidateHandler(handler: Bytes): (err: Option<Bytes>)
    ensures err.None? <==> |handler| == 64
  {
    if |handler| == 64 then None else Some(HANDLER_INVALID)
  }

  /** The policy argument is not used: every connection made here is strongly consistent. */
  function NewBasicConnection(addr: Bytes, consistencyPolicy: int): (conn: BasicStorageConnection)
    ensures conn.addr == addr && conn.consistencyPolicy == STRONG_CONSISTENCY
  {
    BasicStorageConnection(addr, STRONG_CONSISTENCY)
  }

  /** `String()`: a connection prints as its address. */
  function ToString(conn: BasicStorageConnection): Bytes {
    conn.addr
  }

  /** A connection made by `NewBasicConnection` is valid exactly when its address is not empty, and prints as that address. */
  lemma NewConnectionValidity(addr: Bytes, consistencyPolicy: int)
    ensures ValidateBasicStorageConnection(NewBasicConnection(addr, consistencyPolicy)).None? <==> addr != []
    ensures ToString(NewBasicConnection(addr, consistencyPolicy)) == addr
  {
  }

  // ---------------------------------------------------------------------
  // Text in URLs
  // ---------------------------------------------------------------------

  /** `strconv.Itoa`: decimal digits, with a leading '-' for a negative number. */
  function Itoa(n: int): (s: Bytes)
    ensures 0 < |s|
  {
    if n < 0 then Ascii("-") + Ascii(Decimal(-n)) else Ascii(Decimal(n))
  }

  /** A lower-case hex digit. */
  function HexDigit(d: nat): (c: byte)
    requires d < 16
  {
    if d < 10 then 48 + d else 87 + d
  }

  function HexValue(c: byte): nat {
    if 48 <= c <= 57 then c - 48
    else if 97 <= c <= 102 then c - 87
    else 0
  }

  /** `hex.EncodeToString`: two lower-case digits per byte, high nibble first. */
  function HexEncode(b: Bytes): (r: Bytes)
    ensures |r| == 2 * |b|
  {
    if b == [] then [] else [HexDigit(b[0] / 16), HexDigit(b[0] % 16)] + HexEncode(b[1..])
  }

  /** Reads pairs of hex digits back into bytes. */
  function HexDecode(s: Bytes): Bytes
    requires |s| % 2 == 0
  {
    if s == [] then [] else [16 * HexValue(s[0]) + HexValue(s[1])] + HexDecode(s[2..])
  }

  lemma {:induction false} HexEncodeDigits(b: Bytes, i: nat)
    requires i < |b|
    ensures HexEncode(b)[2 * i] == HexDigit(b[i] / 16) && HexEncode(b)[2 * i + 1] == HexDigit(b[i] % 16)
  {
    if i > 0 {
      HexEncodeDigits(b[1..], i - 1);
    }
  }

  lemma {:induction false} HexRoundTrip(b: Bytes)
    ensures HexDecode(HexEncode(b)) == b
  {
    if b != [] {
      var e := HexEncode(b);
      assert e[2..] == HexEncode(b[1..]);
      HexRoundTrip(b[1..]);
    }
  }

  lemma HexEncodeInjective(a: Bytes, b: Bytes)
    requires HexEncode(a) == HexEncode(b)
    ensures a == b
  {
    HexRoundTrip(a);
    HexRoundTrip(b);
  }

  // ---------------------------------------------------------------------
  // Requests and replies
  // ---------------------------------------------------------------------

  function PutUrl(conn: BasicStorageConnection): Bytes {
    conn.addr + Ascii("?") + Ascii("consistency_policy=") + Itoa(conn.consistencyPolicy)
  }

  function GetUrl(conn: BasicStorageConnection, handler: Bytes): Bytes {
    conn.addr + Ascii("?consistency_policy=") + Itoa(conn.consistencyPolicy) + Ascii("&handler=") + HexEncode(handler)
  }

  /**
   * The GET URL is the PUT URL followed by the handler in hex, which can be
   * read back from its end: the PUT URL carries no handler, and distinct
   * handlers give distinct GET URLs.
   */
  lemma GetUrlCarriesHandler(conn: BasicStorageConnection, handler: Bytes)
    ensures var url := GetUrl(conn, handler);
            && url == PutUrl(conn) + Ascii("&handler=") + HexEncode(handler)
            && |url| >= 2 * |handler|
            && HexDecode(url[|url| - 2 * |handler|..]) == handler
  {
    QueryLiteral();
    var prefix := PutUrl(conn) + Ascii("&handler=");
    assert GetUrl(conn, handler) == prefix + HexEncode(handler);
    assert (prefix + HexEncode(handler))[|prefix|..] == HexEncode(handler);
    HexRoundTrip(handler);
  }

  /** The GET query literal is the PUT format's '?' followed by its literal. */
  lemma QueryLiteral()
    ensures Ascii("?consistency_policy=") == Ascii("?") + Ascii("consistency_policy=")
  {
    AsciiAppend("?", "consistency_policy=");
    assert "?" + "consistency_policy=" == "?consistency_policy=";
  }

  /** Two GETs on one connection go to the same URL exactly when they carry the same handler. */
  lemma GetUrlIdentifiesHandler(conn: BasicStorageConnection, h1: Bytes, h2: Bytes)
    ensures GetUrl(conn, h1) == GetUrl(conn, h2) <==> h1 == h2
  {
    if GetUrl(conn, h1) == GetUrl(conn, h2) {
      GetUrlCarriesHandler(conn, h1);
      GetUrlCarriesHandler(conn, h2);
      assert |h1| == |h2|;
    }
  }

  datatype HttpRequest = Get(url: Bytes) | Post(url: Bytes, contentType: Bytes, body: Bytes)

  /** The round trip: the transport failed, or a status and the body (None when reading it failed). */
  datatype HttpReply = TransportFailure | Reply(status: int, body: Option<Bytes>)

  datatype ConnError = TransportError | BodyReadError | StatusError(body: Bytes)

  datatype ConnResult<+T> = Done(value: T) | Failed(error: ConnError)

  /**
   * `GetSlice`: the handler's check is overwritten by the connection's, so
   * only an invalid connection stops the call (through `log.Fatal`). The
   * request is a GET of the handler's URL; a 200 reply gives its body, any
   * other status an error carrying the body.
   */
  method GetSlice(conn: BasicStorageConnection, handler: Bytes, transport: HttpRequest -> HttpReply)
    returns (r: Outcome<ConnResult<Bytes>>)
    ensures r.Aborted? <==> ValidateBasicStorageConnection(conn).Some?
    ensures r.Returned? ==>
              var reply := transport(Get(GetUrl(conn, handler)));
              && (r.value.Done? <==> reply.Reply? && reply.status == 200 && reply.body.Some?)
              && (r.value.Done? ==> r.value.value == reply.body.value)
              && (reply.TransportFailure? ==> r.value == Failed(TransportError))
              && (reply.Reply? && reply.body.None? ==> r.value == Failed(BodyReadError))
              && (reply.Reply? && reply.status != 200 && reply.body.Some? ==> r.value == Failed(StatusError(reply.body.value)))
  {
    var err := ValidateHandler(handler);
    err := ValidateBasicStorageConnection(conn);
    if err.Some? {
      return Aborted;
    }
    var b: Bytes := [];
    b := b + conn.addr;
    b := b + Ascii("?consistency_policy=");
    b := b + Itoa(conn.consistencyPolicy);
    b := b + Ascii("&handler=");
    var handlerInHex := HexEncode(handler);
    b := b + handlerInHex;
    assert b == GetUrl(conn, handler);
    var resp := transport(Get(b));
    if resp.TransportFailure? {
      return Returned(Failed(TransportError));
    }
    if resp.status != 200 {
      if resp.body.None? {
        return Returned(Failed(BodyReadError));
      }
      return Returned(Failed(StatusError(resp.body.value)));
    }
    if resp.body.None? {
      return Returned(Failed(BodyReadError));
    }
    return Returned(Done(resp.body.value));
  }

  /**
   * `PutSlice`: an invalid connection stops the call. The request is a POST
   * of the bytes, as an octet stream, to the URL without the handler; a 200
   * reply is success, any other status an error carrying the body.
   */
  method PutSlice(conn: BasicStorageConnection, handler: Bytes, buf: Bytes, transport: HttpRequest -> HttpReply)
    returns (r: Outcome<ConnResult<()>>)
    ensures r.Aborted? <==> ValidateBasicStorageConnection(conn).Some?
    ensures r.Returned? ==>
              var reply := transport(Post(PutUrl(conn), OCTET_STREAM, buf));
              && (r.value.Done? <==> reply.Reply? && reply.status == 200)
              && (reply.TransportFailure? ==> r.value == Failed(TransportError))
              && (reply.Reply? && reply.status != 200 ==>
                    r.value == if reply.body.None? then Failed(BodyReadError) else Failed(StatusError(reply.body.value)))
  {
    var err := ValidateBasicStorageConnection(conn);
    if err.Some? {
      return Aborted;
    }
    var resp := transport(Post(PutUrl(conn), OCTET_STREAM, buf));
    if resp.TransportFailure? {
      return Returned(Failed(TransportError));
    }
    if resp.status != 200 {
      if resp.body.None? {
        return Returned(Failed(BodyReadError));
      }
      return Returned(Failed(StatusError(resp.body.value)));
    }
    return Returned(Done(()));
  }
}
