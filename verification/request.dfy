/** `parse_request`: the request line read into method, path and version. */
module Request {
  import opened Base
  import opened Text

  /** The three fields of the request line (the source's `Headers` struct). */
  datatype Headers = Headers(httpMethod: string, path: string, version: string)

  /** What every missing field of the request line defaults to. */
  const Defaults := Headers("GET", "/", "HTTP/1.1")

  /** The n-th token, or `default` when there are fewer tokens. */
  function Nth(tokens: seq<string>, n: nat, default: string): string {
    if n < |tokens| then tokens[n] else default
  }

  /** Tokens 0, 1 and 2 of a request line; a missing token takes its default. */
  function ParseLine(line: string): (h: Headers)
    ensures IsWord(h.httpMethod) && IsWord(h.path) && IsWord(h.version)
  {
    var tokens := Words(line);
    WordsAreWords(line);
    DefaultsAreWords();
    Headers(Nth(tokens, 0, "GET"), Nth(tokens, 1, "/"), Nth(tokens, 2, "HTTP/1.1"))
  }

  /**
   * The request line is the first line; a request with no line at all is
   * read as the line "GET". Total: every string parses, and every field
   * comes out a non-empty, whitespace-free word.
   */
  function ParseRequest(request: string): (h: Headers)
    ensures IsWord(h.httpMethod) && IsWord(h.path) && IsWord(h.version)
  {
    ParseLine(FirstLine(request).GetOr("GET"))
  }

  /** Printable ASCII text is a word. */
  lemma PrintableIsWord(w: string)
    requires |w| > 0 && forall k :: 0 <= k < |w| ==> 0x20 < w[k] as int < 0x7F
    ensures IsWord(w)
  {
  }

  lemma DefaultsAreWords()
    ensures IsWord("GET") && IsWord("/") && IsWord("HTTP/1.1")
  {
    PrintableIsWord("GET");
    PrintableIsWord("/");
    PrintableIsWord("HTTP/1.1");
  }

  lemma WordHasNoLineFeed(w: string)
    requires IsWord(w)
    ensures '\n' !in w
  {
    assert IsWhitespace('\n');
  }

  /** A word and a space: the word is the first token, and the space is skipped. */
  lemma WordsOfWordSpace(w: string, rest: string)
    requires IsWord(w)
    ensures Words(w + " " + rest) == [w] + Words(rest)
  {
    assert IsWhitespace(' ');
    AppendAssoc(w, " ", rest);
    WordsOfWordThen(w, " " + rest);
    WordsAfterSpace(' ', rest);
  }

  /** The tokens of three words set apart by single spaces, then whitespace-led text. */
  lemma WordsOfThree(m: string, p: string, v: string, extra: string)
    requires IsWord(m) && IsWord(p) && IsWord(v)
    requires extra == [] || IsWhitespace(extra[0])
    ensures Words(m + " " + p + " " + v + extra) == [m] + ([p] + ([v] + Words(extra)))
  {
    var tail := p + " " + (v + extra);
    AppendAssoc(m + " " + p + " ", v, extra);
    AppendAssoc(m + " ", p + " ", v + extra);
    AppendAssoc(m + " ", p, " ");
    WordsOfWordThen(v, extra);
    WordsOfWordSpace(p, v + extra);
    WordsOfWordSpace(m, tail);
  }

  /** Three words on a line are method, path and version; whatever follows a space after them is ignored. */
  lemma ParseLineOfThree(m: string, p: string, v: string, extra: string)
    requires IsWord(m) && IsWord(p) && IsWord(v)
    requires extra == [] || IsWhitespace(extra[0])
    ensures ParseLine(m + " " + p + " " + v + extra) == Headers(m, p, v)
  {
    WordsOfThree(m, p, v, extra);
  }

  /** The tokens of three words set apart by any runs of whitespace, after leading whitespace and before whitespace-led text. */
  lemma WordsSeparated(lead: string, m: string, s1: string, p: string, s2: string, v: string, extra: string)
    requires AllWhitespace(lead)
    requires IsWord(m) && IsWord(p) && IsWord(v)
    requires s1 != [] && AllWhitespace(s1) && s2 != [] && AllWhitespace(s2)
    requires extra == [] || IsWhitespace(extra[0])
    ensures Words(lead + m + s1 + p + s2 + v + extra) == [m] + ([p] + ([v] + Words(extra)))
  {
    var t3 := v + extra;
    var t2 := p + (s2 + t3);
    var t1 := m + (s1 + t2);
    assert lead + m + s1 + p + s2 + v + extra == lead + t1 by {
      AppendAssoc(lead + m + s1 + p + s2, v, extra);
      AppendAssoc(lead + m + s1 + p, s2, t3);
      AppendAssoc(lead + m + s1, p, s2 + t3);
      AppendAssoc(lead + m, s1, t2);
      AppendAssoc(lead, m, s1 + t2);
    }
    SkipBlank(lead, t1);
    WordThenBlank(m, s1, t2);
    WordThenBlank(p, s2, t3);
    WordsOfWordThen(v, extra);
  }

  /**
   * Method, path and version are tokens 0, 1 and 2 of the line, however
   * much whitespace sets them apart or leads the line; anything after a
   * whitespace character following the third token is ignored.
   */
  lemma ParseLineSeparated(lead: string, m: string, s1: string, p: string, s2: string, v: string, extra: string)
    requires AllWhitespace(lead)
    requires IsWord(m) && IsWord(p) && IsWord(v)
    requires s1 != [] && AllWhitespace(s1) && s2 != [] && AllWhitespace(s2)
    requires extra == [] || IsWhitespace(extra[0])
    ensures ParseLine(lead + m + s1 + p + s2 + v + extra) == Headers(m, p, v)
  {
    WordsSeparated(lead, m, s1, p, s2, v, extra);
  }

  /** A line without a line feed is parsed as the request line. */
  lemma ParseRequestOfLine(line: string)
    requires line != [] && '\n' !in line
    ensures ParseRequest(line) == ParseLine(line)
  {
    FirstLineWhole(line);
  }

  /** A first line of three words gives method, path and version; whatever follows a space after them is ignored. */
  lemma ParseRequestLine(m: string, p: string, v: string, extra: string)
    requires IsWord(m) && IsWord(p) && IsWord(v)
    requires '\n' !in extra
    requires extra == [] || IsWhitespace(extra[0])
    ensures ParseRequest(m + " " + p + " " + v + extra) == Headers(m, p, v)
  {
    WordHasNoLineFeed(m);
    WordHasNoLineFeed(p);
    WordHasNoLineFeed(v);
    var s := m + " " + p + " " + v + extra;
    assert '\n' !in s;
    ParseRequestOfLine(s);
    ParseLineOfThree(m, p, v, extra);
  }

  /** A line of two words defaults the version. */
  lemma ParseLineTwoWords(m: string, p: string)
    requires IsWord(m) && IsWord(p)
    ensures ParseLine(m + " " + p) == Headers(m, p, "HTTP/1.1")
  {
    assert p + [] == p;
    WordsOfWordSpace(m, p);
    WordsOfWordThen(p, []);
  }

  /** A first line of two words defaults the version. */
  lemma ParseRequestTwoWords(m: string, p: string)
    requires IsWord(m) && IsWord(p)
    ensures ParseRequest(m + " " + p) == Headers(m, p, "HTTP/1.1")
  {
    WordHasNoLineFeed(m);
    WordHasNoLineFeed(p);
    assert '\n' !in m + " " + p;
    ParseRequestOfLine(m + " " + p);
    ParseLineTwoWords(m, p);
  }

  /** A line of one word defaults path and version. */
  lemma ParseLineOneWord(m: string)
    requires IsWord(m)
    ensures ParseLine(m) == Headers(m, "/", "HTTP/1.1")
  {
    WordsOfWordThen(m, []);
    assert m + [] == m;
  }

  /** A first line of one word defaults path and version. */
  lemma ParseRequestOneWord(m: string)
    requires IsWord(m)
    ensures ParseRequest(m) == Headers(m, "/", "HTTP/1.1")
  {
    WordHasNoLineFeed(m);
    ParseRequestOfLine(m);
    ParseLineOneWord(m);
  }

  /** An empty request has no first line and is read as the line "GET". */
  lemma ParseRequestEmpty()
    ensures ParseRequest([]) == Defaults
  {
    DefaultsAreWords();
    ParseLineOneWord("GET");
  }

  /** A blank line is read as GET / HTTP/1.1. */
  lemma ParseLineBlank(line: string)
    requires AllWhitespace(line)
    ensures ParseLine(line) == Defaults
  {
    WordsOfWhitespace(line);
  }

  /** An empty or blank request is read as GET / HTTP/1.1. */
  lemma ParseRequestBlank(request: string)
    requires AllWhitespace(request)
    ensures ParseRequest(request) == Defaults
  {
    if request == [] {
      ParseRequestEmpty();
    } else {
      var line := FirstLine(request).value;
      assert AllWhitespace(line) by {
        assert forall k :: 0 <= k < |line| ==> line[k] == request[k];
      }
      ParseLineBlank(line);
    }
  }

  /** A carriage return at the end of the line is whitespace and yields no token. */
  lemma ParseLineDropsReturn(init: string)
    ensures ParseLine(init + "\r") == ParseLine(init)
  {
    assert IsWhitespace('\r');
    WordsDropTrailingSpace(init, '\r');
  }

  /** Only the first line counts: nothing after the first line feed changes the result. */
  lemma LaterLinesIgnored(line: string, rest: string)
    requires '\n' !in line
    ensures ParseRequest(line + "\n" + rest) == ParseRequest(line)
  {
    FirstLineBeforeBreak(line, rest);
    if line == [] {
      ParseLineBlank([]);
      ParseRequestEmpty();
    } else {
      ParseRequestOfLine(line);
      if line[|line| - 1] == '\r' {
        var init := line[..|line| - 1];
        assert line == init + "\r";
        ParseLineDropsReturn(init);
      }
    }
  }

  /** A line of two tokens, under any whitespace around and between them, defaults the version. */
  lemma ParseLineTwoSeparated(lead: string, m: string, s1: string, p: string, trail: string)
    requires AllWhitespace(lead) && AllWhitespace(trail)
    requires IsWord(m) && IsWord(p)
    requires s1 != [] && AllWhitespace(s1)
    ensures ParseLine(lead + m + s1 + p + trail) == Headers(m, p, "HTTP/1.1")
  {
    var t1 := m + (s1 + (p + trail));
    assert lead + m + s1 + p + trail == lead + t1 by {
      AppendAssoc(lead + m + s1, p, trail);
      AppendAssoc(lead + m, s1, p + trail);
      AppendAssoc(lead, m, s1 + (p + trail));
    }
    SkipBlank(lead, t1);
    WordThenBlank(m, s1, p + trail);
    WordsOfWordThen(p, trail);
    WordsOfWhitespace(trail);
  }

  /** A line of one token, under any whitespace around it, defaults path and version. */
  lemma ParseLineOneSeparated(lead: string, m: string, trail: string)
    requires AllWhitespace(lead) && AllWhitespace(trail)
    requires IsWord(m)
    ensures ParseLine(lead + m + trail) == Headers(m, "/", "HTTP/1.1")
  {
    AppendAssoc(lead, m, trail);
    SkipBlank(lead, m + trail);
    WordsOfWordThen(m, trail);
    WordsOfWhitespace(trail);
  }

  /**
   * A request whose first line holds two tokens, with any whitespace around
   * and between them, defaults the version, whether or not a line feed and
   * further lines follow.
   */
  lemma ParseRequestTwoTokens(lead: string, m: string, s1: string, p: string, trail: string, rest: string)
    requires AllWhitespace(lead) && AllWhitespace(trail)
    requires IsWord(m) && IsWord(p)
    requires s1 != [] && AllWhitespace(s1)
    requires '\n' !in lead && '\n' !in s1 && '\n' !in trail
    ensures ParseRequest(lead + m + s1 + p + trail) == Headers(m, p, "HTTP/1.1")
    ensures ParseRequest(lead + m + s1 + p + trail + "\n" + rest) == Headers(m, p, "HTTP/1.1")
  {
    var line := lead + m + s1 + p + trail;
    WordHasNoLineFeed(m);
    WordHasNoLineFeed(p);
    assert '\n' !in line;
    LaterLinesIgnored(line, rest);
    ParseRequestOfLine(line);
    ParseLineTwoSeparated(lead, m, s1, p, trail);
  }

  /**
   * A request whose first line holds one token, with any whitespace around
   * it, defaults path and version, whether or not a line feed and further
   * lines follow.
   */
  lemma ParseRequestOneToken(lead: string, m: string, trail: string, rest: string)
    requires AllWhitespace(lead) && AllWhitespace(trail)
    requires IsWord(m)
    requires '\n' !in lead && '\n' !in trail
    ensures ParseRequest(lead + m + trail) == Headers(m, "/", "HTTP/1.1")
    ensures ParseRequest(lead + m + trail + "\n" + rest) == Headers(m, "/", "HTTP/1.1")
  {
    var line := lead + m + trail;
    WordHasNoLineFeed(m);
    assert '\n' !in line;
    LaterLinesIgnored(line, rest);
    ParseRequestOfLine(line);
    ParseLineOneSeparated(lead, m, trail);
  }

  /** A conventional request: its request line ends in CR LF and headers follow. */
  lemma ParseHttpRequest(m: string, p: string, v: string, rest: string)
    requires IsWord(m) && IsWord(p) && IsWord(v)
    ensures ParseRequest(m + " " + p + " " + v + "\r\n" + rest) == Headers(m, p, v)
  {
    var line := m + " " + p + " " + v + "\r";
    WordHasNoLineFeed(m);
    WordHasNoLineFeed(p);
    WordHasNoLineFeed(v);
    assert '\n' !in line;
    assert m + " " + p + " " + v + "\r\n" + rest == line + "\n" + rest;
    LaterLinesIgnored(line, rest);
    assert IsWhitespace('\r');
    ParseRequestLine(m, p, v, "\r");
  }
}
