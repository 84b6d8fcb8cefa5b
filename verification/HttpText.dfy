/** Bytes that HTTP bodies are framed with. */
module HttpText {
  import opened Packing

  const CRLF: seq<byte> := [13, 10]
  const DASH: seq<byte> := [45, 45]
}
