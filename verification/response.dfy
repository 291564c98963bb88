/**
 * The response builders `serve_html` and `serve_other_file`, with the file
 * system passed in as a map from path text to what that path names.
 */
module Response {
  import opened Base
  import opened Utf8
  import opened Decimal
  import opened ContentTypes
  import opened Request

  /** What a path names on disk. A path absent from the map cannot be opened (missing, or not permitted). */
  datatype Entry = File(contents: seq<byte>) | Directory

  type FileSystem = map<string, Entry>

  /**
   * What handling one connection comes to: bytes written back, or a panic
   * that ends the connection's thread before anything is written.
   */
  datatype Reply = Sent(bytes: seq<byte>) | Aborted

  /** `fs::read_to_string`: the text of a regular file whose bytes are well-formed UTF-8. */
  function ReadToString(fs: FileSystem, path: string): (r: Option<string>)
    ensures r.Some? <==> path in fs && fs[path].File? && Decode(fs[path].contents).Some?
    ensures r.Some? ==> Encode(r.value) == fs[path].contents
  {
    if path in fs && fs[path].File? then
      var text := Decode(fs[path].contents);
      if text.Some? then
        EncodeDecode(fs[path].contents);
        text
      else None
    else None
  }

  /** The status line and headers of a page, after the version: status "200 OK", type text/html, then a blank line. */
  const HtmlHead := " 200 " + "OK\r\nContent-Type: text/html\r\n\r\n"

  /** The three-digit status codes the server sends, as the bytes of their digits. */
  const Code200: seq<byte> := [0x32, 0x30, 0x30]
  const Code404: seq<byte> := [0x34, 0x30, 0x34]

  /** r opens with a status line for the version and the code: version, space, code, space. */
  predicate HasStatus(version: string, code: seq<byte>, r: seq<byte>) {
    Encode(version) + ([0x20] + code + [0x20]) <= r
  }

  lemma EncodeOf200()
    ensures Encode(" 200 ") == [0x20] + Code200 + [0x20]
  {
  }

  lemma EncodeOf404()
    ensures Encode(" 404 ") == [0x20] + Code404 + [0x20]
  {
  }

  /** Text that begins with the version and then " code " encodes to a status line. */
  lemma StatusOf(version: string, status: string, code: seq<byte>, text: string)
    requires Encode(status) == [0x20] + code + [0x20]
    requires version + status <= text
    ensures HasStatus(version, code, Encode(text))
  {
    var head := version + status;
    assert text == head + text[|head|..];
    EncodeAppend(head, text[|head|..]);
    EncodeAppend(version, status);
    PrefixAppend(Encode(head), Encode(head), Encode(text[|head|..]));
  }

  /** The one failure response both builders send: status 404 after the version. */
  function NotFound(version: string): (r: seq<byte>)
    ensures HasStatus(version, Code404, r)
  {
    var text := version + " 404 " + "Not found\r\nContent-Type: text/plain\r\n\r\nFile not found\n";
    EncodeOf404();
    StatusOf(version, " 404 ", Code404, text);
    Encode(text)
  }

  /**
   * `serve_html`: the page's text between the head and a closing line feed,
   * or Not Found when it cannot be read as text.
   */
  function ServeHtml(h: Headers, fs: FileSystem): (r: seq<byte>)
    ensures ReadToString(fs, h.path).Some? ==> HasStatus(h.version, Code200, r)
    ensures ReadToString(fs, h.path).None? ==> r == NotFound(h.version)
    ensures ReadToString(fs, h.path).Some? ==> r == Encode(h.version + HtmlHead) + fs[h.path].contents + [0x0A]
  {
    match ReadToString(fs, h.path)
    case None => NotFound(h.version)
    case Some(file) =>
      HtmlBytes(h.version, file);
      var text := h.version + HtmlHead + file + "\n";
      PrefixAppend(h.version + " 200 ", h.version + HtmlHead, file);
      PrefixAppend(h.version + " 200 ", h.version + HtmlHead + file, "\n");
      EncodeOf200();
      StatusOf(h.version, " 200 ", Code200, text);
      Encode(h.version + HtmlHead + file + "\n")
  }

  /** The page's bytes go out unchanged between the encoded head and the final line feed. */
  lemma HtmlBytes(version: string, file: string)
    ensures Encode(version + HtmlHead + file + "\n") == Encode(version + HtmlHead) + Encode(file) + [0x0A]
  {
    var head := version + HtmlHead;
    EncodeAppend(head, file);
    EncodeAppend(head + file, "\n");
  }

  /** The header block `serve_other_file` puts in front of a file's bytes: it opens with the version and closes with a blank line. */
  function BinaryHead(version: string, contentType: string, length: string): (r: string)
    ensures version <= r
    ensures |r| >= |version| + 4 && r[|r| - 4..] == "\r\n\r\n"
  {
    version + " 200 " + "Ok\r\nContent-Type: " + contentType + "\r\nContent-Length: " + length + "\r\n\r\n"
  }

  /**
   * `serve_other_file`: the file's bytes, unchanged, after a header block
   * giving their media type and their count. A path that cannot be opened
   * gets Not Found; a directory opens but cannot be read, and the handler panics.
   */
  function ServeOtherFile(h: Headers, fileType: string, fs: FileSystem): (r: Reply)
    ensures r.Sent? && h.path in fs ==> HasStatus(h.version, Code200, r.bytes)
    ensures h.path !in fs ==> r == Sent(NotFound(h.version))
    ensures h.path in fs && fs[h.path].Directory? ==> r == Aborted
    ensures h.path in fs && fs[h.path].File? ==>
      var body := fs[h.path].contents;
      && r.Sent?
      && |r.bytes| >= |body|
      && r.bytes[|r.bytes| - |body|..] == body
      && exists length :: Canonical(length) && Parse(length) == Some(|body|)
           && r.bytes[..|r.bytes| - |body|] == Encode(BinaryHead(h.version, ContentType(fileType), length))
  {
    var contentType := ContentType(fileType);
    if h.path !in fs then Sent(NotFound(h.version))
    else
      match fs[h.path]
      case Directory => Aborted
      case File(buffer) =>
        var length := Show(|buffer|);
        var head := Encode(BinaryHead(h.version, contentType, length));
        BinaryStatus(h.version, contentType, length);
        PrefixAppend(Encode(h.version) + ([0x20] + Code200 + [0x20]), head, buffer);
        ParseShow(|buffer|);
        assert (head + buffer)[..|head|] == head;
        Sent(head + buffer)
  }

  lemma BinaryStatus(version: string, contentType: string, length: string)
    ensures HasStatus(version, Code200, Encode(BinaryHead(version, contentType, length)))
  {
    EncodeOf200();
    StatusOf(version, " 200 ", Code200, BinaryHead(version, contentType, length));
  }
}
