/**
 * Decoding of the sender header and of attachment filenames. The email
 * library's header decoder and the byte codecs are not modelled: they are
 * carried as total functions in a `Library` value.
 */
module HeaderDecoding {
  import opened Prelude

  /**
   * The first chunk of `email.header.decode_header(h)`: plain text when the
   * header holds no encoded word, otherwise raw bytes with the declared
   * charset (which may be missing).
   */
  datatype HeaderChunk = Text(text: string) | Encoded(raw: seq<byte>, charset: Option<string>)

  /**
   * The library behaviour the service relies on:
   * - `firstChunk(h)`: `decode_header(h)[0]`, `None` when `decode_header`
   *   raises (HeaderParseError on a malformed base64 encoded word);
   * - `strictUtf8(b)`: `b.decode()`, `None` when it raises UnicodeDecodeError;
   * - `decodeReplace(cs, b)`: `b.decode(cs, errors='replace')`, which does not fail.
   */
  datatype Library = Library(
    firstChunk: string -> Option<HeaderChunk>,
    strictUtf8: seq<byte> -> Option<string>,
    decodeReplace: (string, seq<byte>) -> string)

  /** `charset or 'utf-8'`: a missing or empty charset falls back to UTF-8. */
  function CharsetOrUtf8(charset: Option<string>): (name: string)
    ensures name != ""
    ensures charset.Some? && charset.value != "" ==> name == charset.value
    ensures charset.None? || charset.value == "" ==> name == "utf-8"
  {
    if charset.Some? && charset.value != "" then charset.value else "utf-8"
  }

  /**
   * The filename of an attachment part, `None` when `decode_header` raises.
   * Unencoded text is kept; encoded bytes are decoded with their declared
   * charset (UTF-8 when none) and replacement characters.
   */
  function DecodeFilename(lib: Library, filename: string): (name: Option<string>)
    ensures name.None? <==> lib.firstChunk(filename).None?
    ensures lib.firstChunk(filename).Some? && lib.firstChunk(filename).value.Text? ==>
      name == Some(lib.firstChunk(filename).value.text)
    ensures lib.firstChunk(filename).Some? && lib.firstChunk(filename).value.Encoded? ==>
      var c := lib.firstChunk(filename).value;
      name == Some(lib.decodeReplace(CharsetOrUtf8(c.charset), c.raw))
  {
    match lib.firstChunk(filename)
    case None => None
    case Some(Text(s)) => Some(s)
    case Some(Encoded(raw, charset)) => Some(lib.decodeReplace(CharsetOrUtf8(charset), raw))
  }

  /**
   * The sender shown in the log, `None` when `decode_header` raises.
   * Unencoded text is kept; encoded bytes are decoded as strict UTF-8
   * whatever charset they declare, and on failure again as UTF-8 with
   * replacement characters.
   */
  function DecodeSender(lib: Library, header: string): (sender: Option<string>)
    ensures sender.None? <==> lib.firstChunk(header).None?
    ensures lib.firstChunk(header).Some? && lib.firstChunk(header).value.Text? ==>
      sender == Some(lib.firstChunk(header).value.text)
    ensures lib.firstChunk(header).Some? && lib.firstChunk(header).value.Encoded? ==>
      var raw := lib.firstChunk(header).value.raw;
      sender == Some(if lib.strictUtf8(raw).Some? then lib.strictUtf8(raw).value
                     else lib.decodeReplace("utf-8", raw))
  {
    match lib.firstChunk(header)
    case None => None
    case Some(Text(s)) => Some(s)
    case Some(Encoded(raw, _)) =>
      match lib.strictUtf8(raw)
      case Some(s) => Some(s)
      case None => Some(lib.decodeReplace("utf-8", raw))
  }

  /** The replacing UTF-8 decoder agrees with the strict one wherever the strict one succeeds. */
  ghost predicate ReplaceExtendsStrict(lib: Library)
  {
    forall raw :: lib.strictUtf8(raw).Some? ==> lib.decodeReplace("utf-8", raw) == lib.strictUtf8(raw).value
  }

  /**
   * With consistent codecs the strict-then-replace fallback for the sender
   * is one replacing UTF-8 decode: the sender is what the filename decoder
   * gives for a header whose charset is missing or is UTF-8, and both fail
   * together.
   */
  lemma SenderIsReplacingUtf8(lib: Library, header: string)
    requires ReplaceExtendsStrict(lib)
    requires lib.firstChunk(header).Some? && lib.firstChunk(header).value.Encoded? ==>
      CharsetOrUtf8(lib.firstChunk(header).value.charset) == "utf-8"
    ensures DecodeSender(lib, header) == DecodeFilename(lib, header)
  {
  }
}
