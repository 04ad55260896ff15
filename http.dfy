/**
 * The parts of an HTTP response the storage handlers set: a status code,
 * headers, and a body.
 */
module Http {
  import opened Common

  const OK: nat := 200
  const TEMPORARY_REDIRECT: nat := 307
  const NOT_FOUND: nat := 404
  const NOT_ACCEPTABLE: nat := 406
  const INTERNAL_SERVER_ERROR: nat := 500
  const BAD_GATEWAY: nat := 502

  datatype Header = Header(name: Bytes, value: Bytes)

  /** A response whose body is of type `B` (raw bytes, or a value the framework encodes as JSON). */
  datatype Response<+B> = Response(status: nat, headers: seq<Header>, body: B)

  const OCTET_STREAM: Header := Header(Ascii("Content-Type"), Ascii("application/octet-stream"))
  const JSON: Header := Header(Ascii("content-type"), Ascii("application/json"))

  function LocationHeader(url: Bytes): Header {
    Header(Ascii("location"), url)
  }
}
