/**
 * `handle_client` with the socket taken away: the request text and the
 * file system go in, the reply comes out. The request path is rewritten
 * into a file path under ./pages by whether it has an extension.
 */
module Server {
  import opened Base
  import opened Text
  import opened Utf8
  import opened Decimal
  import opened Paths
  import opened ContentTypes
  import opened Request
  import opened Response

  /** Where a request path leads: a page served as text, or an asset served as bytes with its extension. */
  datatype Route = Page(fsPath: string) | Asset(fsPath: string, fileType: string)

  predicate EndsWith(s: string, suffix: string) {
    |suffix| <= |s| && s[|s| - |suffix|..] == suffix
  }

  /**
   * The path rewrite of `handle_client`. A path without an extension is a
   * page: "/" is ./pages/index.html, anything else p is ./pages/sub{p}.html.
   * A path with an extension is an asset at ./pages/assets/{p}, joined as
   * written, so "/cat.png" becomes ./pages/assets//cat.png.
   */
  function Resolve(urlPath: string): (r: Route)
    ensures r.Page? <==> Extension(urlPath).None?
    ensures r.Page? ==> r.fsPath == PagePath(urlPath)
    ensures r.Asset? ==> r.fsPath == AssetPath(urlPath) && Extension(urlPath) == Some(r.fileType)
  {
    match Extension(urlPath)
    case None => Page(PagePath(urlPath))
    case Some(fileType) => Asset(AssetPath(urlPath), fileType)
  }

  /** The page file for a path without an extension: an .html file under ./pages, the index page for "/" alone. */
  function PagePath(urlPath: string): (path: string)
    ensures "./pages/" <= path && EndsWith(path, ".html")
    ensures path == "./pages/index.html" <==> urlPath == "/"
    ensures urlPath != "/" ==> path == "./pages/sub" + urlPath + ".html"
  {
    if urlPath == "/" then "./pages/index.html"
    else
      SubPagePath(urlPath);
      "./pages/sub" + urlPath + ".html"
  }

  /** Distinct request paths give distinct page path texts. */
  lemma PagePathInjective(p: string, q: string)
    requires PagePath(p) == PagePath(q)
    ensures p == q
  {
    if p != "/" && q != "/" {
      var a, b := PagePath(p), PagePath(q);
      assert p == a[11..|a| - 5];
      assert q == b[11..|b| - 5];
    }
  }

  /** The asset file for a path with an extension: the path appended to ./pages/assets/, keeping its extension. */
  function AssetPath(urlPath: string): (path: string)
    ensures "./pages/assets/" <= path && path[|"./pages/assets/"|..] == urlPath
    ensures Extension(urlPath).Some? ==> Extension(path) == Extension(urlPath)
  {
    AssetKeepsExtension(urlPath);
    "./pages/assets/" + urlPath
  }

  lemma AssetKeepsExtension(urlPath: string)
    ensures Extension(urlPath).Some? ==> Extension("./pages/assets/" + urlPath) == Extension(urlPath)
  {
    if Extension(urlPath).Some? {
      ExtensionAppend("./pages/assets/", urlPath);
    }
  }

  /** The file behind a page path other than "/" lies under ./pages/sub and is not the index page. */
  lemma SubPagePath(urlPath: string)
    ensures var path := "./pages/sub" + urlPath + ".html";
      "./pages/" <= path && EndsWith(path, ".html") && path != "./pages/index.html"
  {
    var path := "./pages/sub" + urlPath + ".html";
    assert path[8] == 's';
    assert path[..8] == "./pages/";
    assert path[|path| - 5..] == ".html";
  }

  /**
   * Serving parsed headers: the path is rewritten, then the page or the
   * asset is served. Only an asset path naming a directory aborts.
   */
  function Respond(h: Headers, fs: FileSystem): (r: Reply)
    ensures r.Aborted? <==>
      var route := Resolve(h.path);
      route.Asset? && route.fsPath in fs && fs[route.fsPath].Directory?
    ensures r.Sent? ==> HasStatus(h.version, Code200, r.bytes) || HasStatus(h.version, Code404, r.bytes)
  {
    match Resolve(h.path)
    case Page(path) => Sent(ServeHtml(h.(path := path), fs))
    case Asset(path, fileType) => ServeOtherFile(h.(path := path), fileType, fs)
  }

  /**
   * The whole handler: parse, rewrite the path, serve. Every reply opens
   * with the version the request named and status 200 or 404; only a
   * directory named as an asset gets no reply.
   */
  function HandleClient(request: string, fs: FileSystem): (r: Reply)
    ensures var h := ParseRequest(request);
      r.Sent? ==> HasStatus(h.version, Code200, r.bytes) || HasStatus(h.version, Code404, r.bytes)
    ensures var h := ParseRequest(request);
      r.Aborted? <==> Extension(h.path).Some? && AssetPath(h.path) in fs && fs[AssetPath(h.path)].Directory?
  {
    Respond(ParseRequest(request), fs)
  }

  /** A request for a page gets the page's text, or Not Found when there is no readable text file there. */
  lemma ServePage(m: string, p: string, v: string, rest: string, fs: FileSystem)
    requires IsWord(m) && IsWord(p) && IsWord(v)
    requires Extension(p).None?
    ensures var path := Resolve(p).fsPath;
      var r := HandleClient(m + " " + p + " " + v + "\r\n" + rest, fs);
      && (ReadToString(fs, path).None? ==> r == Sent(NotFound(v)))
      && (ReadToString(fs, path).Some? ==>
            r == Sent(Encode(v + HtmlHead) + fs[path].contents + [0x0A]))
  {
    ParseHttpRequest(m, p, v, rest);
  }

  /**
   * A request for an asset gets the file's bytes unchanged after a header
   * naming the extension's media type and the byte count; Not Found when
   * the file cannot be opened; no reply when the path is a directory.
   */
  lemma ServeAsset(m: string, p: string, v: string, rest: string, fs: FileSystem)
    requires IsWord(m) && IsWord(p) && IsWord(v)
    requires Extension(p).Some?
    ensures var path := "./pages/assets/" + p;
      var r := HandleClient(m + " " + p + " " + v + "\r\n" + rest, fs);
      && (path !in fs ==> r == Sent(NotFound(v)))
      && (path in fs && fs[path].Directory? ==> r == Aborted)
      && (path in fs && fs[path].File? ==>
            var body := fs[path].contents;
            && r.Sent? && |r.bytes| >= |body|
            && r.bytes[|r.bytes| - |body|..] == body
            && exists length :: Canonical(length) && Parse(length) == Some(|body|)
                 && r.bytes[..|r.bytes| - |body|] == Encode(BinaryHead(v, ContentType(Extension(p).value), length)))
  {
    var h := Headers(m, p, v);
    ParseHttpRequest(m, p, v, rest);
    RespondAsset(h, fs);
    assert HandleClient(m + " " + p + " " + v + "\r\n" + rest, fs)
        == ServeOtherFile(h.(path := "./pages/assets/" + p), Extension(p).value, fs);
  }

  /** Any headers whose path has no extension: the page file is served, with the version and method kept. */
  lemma RespondPage(h: Headers, fs: FileSystem)
    requires Extension(h.path).None?
    ensures Respond(h, fs) == Sent(ServeHtml(h.(path := PagePath(h.path)), fs))
  {
  }

  /** Any headers whose path has an extension: the asset file is served with that extension's media type. */
  lemma RespondAsset(h: Headers, fs: FileSystem)
    requires Extension(h.path).Some?
    ensures Respond(h, fs) == ServeOtherFile(h.(path := "./pages/assets/" + h.path), Extension(h.path).value, fs)
  {
  }

  /** Both branches answer a missing file with the same bytes. */
  lemma NotFoundEitherWay(m: string, page: string, asset: string, v: string, rest: string, fs: FileSystem)
    requires IsWord(m) && IsWord(page) && IsWord(asset) && IsWord(v)
    requires Extension(page).None? && Extension(asset).Some?
    requires Resolve(page).fsPath !in fs && Resolve(asset).fsPath !in fs
    ensures HandleClient(m + " " + page + " " + v + "\r\n" + rest, fs)
         == HandleClient(m + " " + asset + " " + v + "\r\n" + rest, fs)
         == Sent(NotFound(v))
  {
    ServePage(m, page, v, rest, fs);
    ServeAsset(m, asset, v, rest, fs);
  }

  // -----------------------------------------------------------------------
  // Worked requests
  // -----------------------------------------------------------------------

  /** A GET request line for p, regrouped into the pieces the parsing lemmas take. */
  lemma GetRequestText(p: string)
    ensures "GET " + p + " HTTP/1.1\r\n\r\n" == "GET" + " " + p + " " + "HTTP/1.1" + "\r\n" + "\r\n"
  {
    var x := "GET" + " " + p;
    assert "GET " == "GET" + " ";
    assert " HTTP/1.1\r\n\r\n" == ((" " + "HTTP/1.1") + "\r\n") + "\r\n";
    AppendAssoc(x, (" " + "HTTP/1.1") + "\r\n", "\r\n");
    AppendAssoc(x, " " + "HTTP/1.1", "\r\n");
    AppendAssoc(x, " ", "HTTP/1.1");
  }

  /** The request "GET p HTTP/1.1" with an empty header block asks for p. */
  lemma GetRequest(request: string, p: string)
    requires IsWord(p) && request == "GET " + p + " HTTP/1.1\r\n\r\n"
    ensures ParseRequest(request) == Headers("GET", p, "HTTP/1.1")
  {
    GetRequestText(p);
    DefaultsAreWords();
    ParseHttpRequest("GET", p, "HTTP/1.1", "\r\n");
  }

  /** A GET request for a path without an extension is answered by serving its page file. */
  lemma GetPage(request: string, p: string, fs: FileSystem)
    requires IsWord(p) && request == "GET " + p + " HTTP/1.1\r\n\r\n"
    requires Extension(p).None?
    ensures HandleClient(request, fs) == Sent(ServeHtml(Headers("GET", PagePath(p), "HTTP/1.1"), fs))
  {
    GetRequest(request, p);
  }

  /** A GET request for a path with an extension is answered by serving its asset file. */
  lemma GetAsset(request: string, p: string, fileType: string, fs: FileSystem)
    requires IsWord(p) && request == "GET " + p + " HTTP/1.1\r\n\r\n"
    requires Extension(p) == Some(fileType)
    ensures HandleClient(request, fs) == ServeOtherFile(Headers("GET", AssetPath(p), "HTTP/1.1"), fileType, fs)
  {
    GetRequest(request, p);
  }

  /** GET for an asset path naming a file: the file's bytes after a header with its media type and length. */
  lemma AssetFile(request: string, p: string, fileType: string, fs: FileSystem)
    requires IsWord(p) && request == "GET " + p + " HTTP/1.1\r\n\r\n"
    requires Extension(p) == Some(fileType)
    requires AssetPath(p) in fs && fs[AssetPath(p)].File?
    ensures var body := fs[AssetPath(p)].contents;
      HandleClient(request, fs) == Sent(Encode(BinaryHead("HTTP/1.1", ContentType(fileType), Show(|body|))) + body)
  {
    GetAsset(request, p, fileType, fs);
  }

  /** An extension outside the table is still labelled image/png. */
  lemma UnknownExtension(request: string, p: string, fileType: string, fs: FileSystem)
    requires IsWord(p) && request == "GET " + p + " HTTP/1.1\r\n\r\n"
    requires Extension(p) == Some(fileType) && fileType !in Table
    requires AssetPath(p) in fs && fs[AssetPath(p)].File?
    ensures var body := fs[AssetPath(p)].contents;
      HandleClient(request, fs) == Sent(Encode(BinaryHead("HTTP/1.1", "image/png", Show(|body|))) + body)
  {
    AssetFile(request, p, fileType, fs);
  }

  /** GET / with ./pages/index.html holding "Hi": the page, then a line feed. */
  lemma IndexPage()
    ensures HandleClient("GET / HTTP/1.1\r\n\r\n", map["./pages/index.html" := File([0x48, 0x69])])
         == Sent(Encode("HTTP/1.1" + HtmlHead) + [0x48, 0x69] + [0x0A])
  {
    var fs := map["./pages/index.html" := File([0x48, 0x69])];
    IndexRequest();
    GetPage("GET / HTTP/1.1\r\n\r\n", "/", fs);
  }

  /** The pieces of the / request: a word without extension, whose page file holds the text "Hi". */
  lemma IndexRequest()
    ensures "GET / HTTP/1.1\r\n\r\n" == "GET " + "/" + " HTTP/1.1\r\n\r\n"
    ensures IsWord("/") && Extension("/").None? && PagePath("/") == "./pages/index.html"
    ensures ReadToString(map["./pages/index.html" := File([0x48, 0x69])], "./pages/index.html") == Some("Hi")
  {
    IndexText();
    IndexPath();
    IndexFile();
  }

  lemma IndexText()
    ensures "GET / HTTP/1.1\r\n\r\n" == "GET " + "/" + " HTTP/1.1\r\n\r\n"
  {
  }

  lemma IndexPath()
    ensures IsWord("/") && Extension("/").None? && PagePath("/") == "./pages/index.html"
  {
    PrintableIsWord("/");
    NoDotNoExtension("/");
  }

  lemma IndexFile()
    ensures ReadToString(map["./pages/index.html" := File([0x48, 0x69])], "./pages/index.html") == Some("Hi")
  {
    assert Encode("Hi") == [0x48, 0x69];
    DecodeEncode("Hi");
  }

  /** GET /missing with no ./pages/sub/missing.html: Not Found. */
  lemma MissingPage(fs: FileSystem)
    requires "./pages/sub/missing.html" !in fs
    ensures HandleClient("GET /missing HTTP/1.1\r\n\r\n", fs) == Sent(NotFound("HTTP/1.1"))
  {
    MissingRequest();
    GetPage("GET /missing HTTP/1.1\r\n\r\n", "/missing", fs);
  }

  /** The pieces of the /missing request: a word without extension, looked up as ./pages/sub/missing.html. */
  lemma MissingRequest()
    ensures "GET /missing HTTP/1.1\r\n\r\n" == "GET " + "/missing" + " HTTP/1.1\r\n\r\n"
    ensures IsWord("/missing") && Extension("/missing").None?
    ensures PagePath("/missing") == "./pages/sub/missing.html"
  {
    MissingText();
    MissingPath();
    MissingFile();
  }

  lemma MissingText()
    ensures "GET /missing HTTP/1.1\r\n\r\n" == "GET " + "/missing" + " HTTP/1.1\r\n\r\n"
  {
  }

  lemma MissingPath()
    ensures IsWord("/missing") && Extension("/missing").None?
  {
    PrintableIsWord("/missing");
    NoDotNoExtension("/missing");
  }

  lemma MissingFile()
    ensures PagePath("/missing") == "./pages/sub/missing.html"
  {
    assert "./pages/sub" + "/missing" + ".html" == "./pages/sub/missing.html";
  }

  /** GET /cat.png with a ten-byte file: the file follows a header giving image/png and 10. */
  lemma CatPicture(picture: seq<byte>)
    requires |picture| == 10
    ensures HandleClient("GET /cat.png HTTP/1.1\r\n\r\n", map["./pages/assets//cat.png" := File(picture)])
         == Sent(Encode(BinaryHead("HTTP/1.1", "image/png", "10")) + picture)
  {
    CatRequest();
    AssetFile("GET /cat.png HTTP/1.1\r\n\r\n", "/cat.png", "png", map["./pages/assets//cat.png" := File(picture)]);
  }

  /** The pieces of the /cat.png request: a word with extension png, stored at ./pages/assets//cat.png. */
  lemma CatRequest()
    ensures "GET /cat.png HTTP/1.1\r\n\r\n" == "GET " + "/cat.png" + " HTTP/1.1\r\n\r\n"
    ensures IsWord("/cat.png") && Extension("/cat.png") == Some("png")
    ensures AssetPath("/cat.png") == "./pages/assets//cat.png"
    ensures Show(10) == "10"
  {
    CatText();
    CatPath();
    CatFile();
  }

  lemma CatText()
    ensures "GET /cat.png HTTP/1.1\r\n\r\n" == "GET " + "/cat.png" + " HTTP/1.1\r\n\r\n"
  {
  }

  lemma CatPath()
    ensures IsWord("/cat.png") && Extension("/cat.png") == Some("png")
  {
    PrintableIsWord("/cat.png");
    assert "/" + "cat" + "." + "png" == "/cat.png";
    ExtensionOfName("/", "cat", "png");
  }

  lemma CatFile()
    ensures AssetPath("/cat.png") == "./pages/assets//cat.png"
    ensures Show(10) == "10"
  {
    assert "./pages/assets/" + "/cat.png" == "./pages/assets//cat.png";
    assert Show(1) == "1" && Show(0) == "0";
  }
}
