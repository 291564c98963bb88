/**
 * The two pieces of Rust's string library that the request parser leans on:
 * the first item of `str::lines` and the tokens of `str::split_whitespace`.
 */
module Text {
  import opened Base

  /** Unicode's White_Space property, which `char::is_whitespace` tests. */
  predicate IsWhitespace(c: char) {
    var n := c as int;
    || (0x09 <= n <= 0x0D)
    || n == 0x20
    || n == 0x85
    || n == 0xA0
    || n == 0x1680
    || (0x2000 <= n <= 0x200A)
    || n == 0x2028
    || n == 0x2029
    || n == 0x202F
    || n == 0x205F
    || n == 0x3000
  }

  predicate AllWhitespace(s: string) {
    forall k :: 0 <= k < |s| ==> IsWhitespace(s[k])
  }

  /** A token of `split_whitespace`: non-empty and free of whitespace. */
  predicate IsWord(w: string) {
    |w| > 0 && forall k :: 0 <= k < |w| ==> !IsWhitespace(w[k])
  }

  // ---------------------------------------------------------------------
  // str::lines
  // ---------------------------------------------------------------------

  /** Position of the first line feed in s, or |s| when there is none. */
  function LineEnd(s: string): (i: nat)
    ensures i <= |s|
    ensures forall k :: 0 <= k < i ==> s[k] != '\n'
    ensures i < |s| ==> s[i] == '\n'
  {
    if s == [] || s[0] == '\n' then 0 else 1 + LineEnd(s[1..])
  }

  /**
   * The first item `str::lines` yields: the text before the first line feed,
   * less one carriage return directly in front of that line feed. The empty
   * string has no lines at all.
   */
  function FirstLine(s: string): (r: Option<string>)
    ensures r.None? <==> s == []
    ensures r.Some? ==> '\n' !in r.value && |r.value| <= |s| && r.value == s[..|r.value|]
  {
    if s == [] then None
    else
      var i := LineEnd(s);
      if 0 < i < |s| && s[i - 1] == '\r' then Some(s[..i - 1]) else Some(s[..i])
  }

  lemma {:induction false} LineEndAppend(a: string, b: string)
    requires '\n' !in a
    ensures LineEnd(a + b) == |a| + LineEnd(b)
    decreases |a|
  {
    if a != [] {
      assert (a + b)[1..] == a[1..] + b;
      assert a[0] in a;
      LineEndAppend(a[1..], b);
    } else {
      assert a + b == b;
    }
  }

  /** A line without a line feed is its own first line. */
  lemma FirstLineWhole(line: string)
    requires line != [] && '\n' !in line
    ensures FirstLine(line) == Some(line)
  {
    LineEndAppend(line, []);
    assert line + [] == line;
  }

  /** Whatever follows the first line feed has no bearing on the first line. */
  lemma FirstLineBeforeBreak(line: string, rest: string)
    requires '\n' !in line
    ensures FirstLine(line + "\n" + rest)
         == Some(if line != [] && line[|line| - 1] == '\r' then line[..|line| - 1] else line)
  {
    var s := line + "\n" + rest;
    assert s == line + ("\n" + rest);
    LineEndAppend(line, "\n" + rest);
    assert LineEnd(s) == |line|;
    assert s[..|line|] == line;
    if line != [] && line[|line| - 1] == '\r' {
      assert s[..|line| - 1] == line[..|line| - 1];
    }
  }

  // ---------------------------------------------------------------------
  // str::split_whitespace
  // ---------------------------------------------------------------------

  /** Drops the leading run of whitespace. */
  function DropSpace(s: string): (t: string)
    ensures |t| <= |s|
    ensures t == [] || !IsWhitespace(t[0])
  {
    if s != [] && IsWhitespace(s[0]) then DropSpace(s[1..]) else s
  }

  /** What DropSpace drops is a run of whitespace, and what it keeps is the rest of s. */
  lemma {:induction false} DropSpaceSplit(s: string)
    ensures var t := DropSpace(s);
      t == s[|s| - |t|..] && AllWhitespace(s[..|s| - |t|])
    decreases |s|
  {
    if s != [] && IsWhitespace(s[0]) {
      DropSpaceSplit(s[1..]);
      var t := DropSpace(s[1..]);
      assert s[..|s| - |t|] == [s[0]] + s[1..][..|s[1..]| - |t|];
    }
  }

  /** The longest prefix of s that holds no whitespace. */
  function TakeWord(s: string): (w: string)
    ensures |w| <= |s|
    ensures s != [] && !IsWhitespace(s[0]) ==> |w| > 0
    ensures |w| < |s| ==> IsWhitespace(s[|w|])
  {
    if s != [] && !IsWhitespace(s[0]) then [s[0]] + TakeWord(s[1..]) else []
  }

  /** TakeWord takes a whitespace-free prefix of s. */
  lemma {:induction false} TakeWordSplit(s: string)
    ensures var w := TakeWord(s);
      w == s[..|w|] && forall k :: 0 <= k < |w| ==> !IsWhitespace(w[k])
    decreases |s|
  {
    if s != [] && !IsWhitespace(s[0]) {
      TakeWordSplit(s[1..]);
    }
  }

  /** The tokens `split_whitespace` yields, in order: none exactly for blank text, never more than the text's length. */
  function Words(s: string): (ws: seq<string>)
    ensures ws == [] <==> AllWhitespace(s)
    ensures |ws| <= |s|
    decreases |s|
  {
    var t := DropSpace(s);
    DropSpaceSplit(s);
    if t == [] then
      assert s[..|s|] == s;
      []
    else
      assert s[|s| - |t|] == t[0];
      var w := TakeWord(t);
      [w] + Words(t[|w|..])
  }

  /** Every token is non-empty and free of whitespace. */
  lemma {:induction false} WordsAreWords(s: string)
    ensures forall i :: 0 <= i < |Words(s)| ==> IsWord(Words(s)[i])
    decreases |s|
  {
    var t := DropSpace(s);
    if t != [] {
      var w := TakeWord(t);
      TakeWordSplit(t);
      WordsAreWords(t[|w|..]);
      assert Words(s) == [w] + Words(t[|w|..]);
    }
  }

  /** Reference definition: the non-whitespace characters of s, in order. */
  function NonSpace(s: string): string {
    if s == [] then [] else (if IsWhitespace(s[0]) then [] else [s[0]]) + NonSpace(s[1..])
  }

  function Concat(ws: seq<string>): string {
    if ws == [] then [] else ws[0] + Concat(ws[1..])
  }

  lemma {:induction false} NonSpaceAppend(a: string, b: string)
    ensures NonSpace(a + b) == NonSpace(a) + NonSpace(b)
    decreases |a|
  {
    if a == [] {
      assert a + b == b;
    } else {
      assert (a + b)[1..] == a[1..] + b;
      NonSpaceAppend(a[1..], b);
    }
  }

  lemma {:induction false} NonSpaceOfWhitespace(s: string)
    requires AllWhitespace(s)
    ensures NonSpace(s) == []
    decreases |s|
  {
    if s != [] {
      NonSpaceOfWhitespace(s[1..]);
    }
  }

  lemma {:induction false} NonSpaceOfWord(w: string)
    requires forall k :: 0 <= k < |w| ==> !IsWhitespace(w[k])
    ensures NonSpace(w) == w
    decreases |w|
  {
    if w != [] {
      NonSpaceOfWord(w[1..]);
    }
  }

  /** Leading whitespace adds nothing to the non-whitespace text. */
  lemma NonSpaceDropSpace(s: string)
    ensures NonSpace(DropSpace(s)) == NonSpace(s)
  {
    var t := DropSpace(s);
    DropSpaceSplit(s);
    var blank := s[..|s| - |t|];
    assert s == blank + t;
    NonSpaceAppend(blank, t);
    NonSpaceOfWhitespace(blank);
  }

  /** The first token is where the non-whitespace text of t begins. */
  lemma NonSpaceTakeWord(t: string)
    ensures NonSpace(t) == TakeWord(t) + NonSpace(t[|TakeWord(t)|..])
  {
    var w := TakeWord(t);
    TakeWordSplit(t);
    var rest := t[|w|..];
    assert t == w + rest;
    NonSpaceAppend(w, rest);
    NonSpaceOfWord(w);
  }

  lemma ConcatCons(w: string, ws: seq<string>)
    ensures Concat([w] + ws) == w + Concat(ws)
  {
    assert ([w] + ws)[1..] == ws;
  }

  /** No character is lost or invented: the tokens, glued back together, are the non-whitespace text. */
  lemma {:induction false} WordsKeepText(s: string)
    ensures Concat(Words(s)) == NonSpace(s)
    decreases |s|
  {
    var t := DropSpace(s);
    NonSpaceDropSpace(s);
    if t != [] {
      var w := TakeWord(t);
      var rest := t[|w|..];
      NonSpaceTakeWord(t);
      WordsKeepText(rest);
      ConcatCons(w, Words(rest));
    }
  }

  lemma {:induction false} DropSpaceAppend(a: string, b: string)
    ensures DropSpace(a) == [] ==> DropSpace(a + b) == DropSpace(b)
    ensures DropSpace(a) != [] ==> DropSpace(a + b) == DropSpace(a) + b
    decreases |a|
  {
    if a == [] {
      assert a + b == b;
    } else {
      assert (a + b)[1..] == a[1..] + b;
      if IsWhitespace(a[0]) {
        DropSpaceAppend(a[1..], b);
      }
    }
  }

  lemma {:induction false} TakeWordAppend(t: string, b: string)
    requires b == [] || IsWhitespace(b[0])
    ensures TakeWord(t + b) == TakeWord(t)
    decreases |t|
  {
    if t == [] {
      assert t + b == b;
    } else {
      assert (t + b)[1..] == t[1..] + b;
      if !IsWhitespace(t[0]) {
        TakeWordAppend(t[1..], b);
      }
    }
  }

  lemma SuffixOfAppend(t: string, b: string, k: nat)
    requires k <= |t|
    ensures (t + b)[k..] == t[k..] + b
  {
  }

  /** Tokenising only looks past the leading whitespace. */
  lemma WordsSkipSpace(s: string)
    ensures Words(s) == Words(DropSpace(s))
  {
    var t := DropSpace(s);
    assert DropSpace(t) == t;
  }

  lemma WordsStep(t: string)
    requires t != [] && !IsWhitespace(t[0])
    ensures Words(t) == [TakeWord(t)] + Words(t[|TakeWord(t)|..])
  {
    assert DropSpace(t) == t;
  }

  lemma WordsAppendBlank(a: string, b: string)
    requires DropSpace(a) == []
    ensures Words(a + b) == Words(a) + Words(b)
  {
    DropSpaceAppend(a, b);
    WordsSkipSpace(a + b);
    WordsSkipSpace(b);
    assert Words(a) == [];
  }

  /** Text split at whitespace tokenises piecewise. */
  lemma {:induction false} WordsAppend(a: string, b: string)
    requires b != [] && IsWhitespace(b[0])
    ensures Words(a + b) == Words(a) + Words(b)
    decreases |a|
  {
    var t := DropSpace(a);
    if t == [] {
      WordsAppendBlank(a, b);
    } else {
      DropSpaceAppend(a, b);
      WordsSkipSpace(a + b);
      WordsSkipSpace(a);
      var w := TakeWord(t);
      var rest := t[|w|..];
      TakeWordAppend(t, b);
      SuffixOfAppend(t, b, |w|);
      WordsStep(t + b);
      WordsStep(t);
      WordsAppend(rest, b);
      var x, y := Words(rest), Words(b);
      assert Words(a + b) == [w] + (x + y);
      assert Words(a) == [w] + x;
      AppendAssoc([w], x, y);
    }
  }

  lemma {:induction false} TakeWordOfWord(w: string)
    requires forall k :: 0 <= k < |w| ==> !IsWhitespace(w[k])
    ensures TakeWord(w) == w
    decreases |w|
  {
    if w != [] {
      TakeWordOfWord(w[1..]);
    }
  }

  lemma {:induction false} DropSpaceOfWhitespace(s: string)
    requires AllWhitespace(s)
    ensures DropSpace(s) == []
    decreases |s|
  {
    if s != [] {
      DropSpaceOfWhitespace(s[1..]);
    }
  }

  /** Blank text has no tokens. */
  lemma WordsOfWhitespace(s: string)
    requires AllWhitespace(s)
    ensures Words(s) == []
  {
    DropSpaceOfWhitespace(s);
  }

  /** A word followed by a whitespace-led tail is the first token, and the tail tokenises on its own. */
  lemma WordsOfWordThen(w: string, rest: string)
    requires IsWord(w)
    requires rest == [] || IsWhitespace(rest[0])
    ensures Words(w + rest) == [w] + Words(rest)
  {
    TakeWordOfWord(w);
    assert DropSpace(w) == w;
    assert w[|w|..] == [];
    assert Words(w) == [w];
    if rest == [] {
      assert w + rest == w;
    } else {
      WordsAppend(w, rest);
    }
  }

  /** Leading whitespace is skipped. */
  lemma WordsAfterSpace(c: char, s: string)
    requires IsWhitespace(c)
    ensures Words([c] + s) == Words(s)
  {
    assert ([c] + s)[1..] == s;
    assert DropSpace([c] + s) == DropSpace(s);
  }

  /** Whitespace at the end of the text yields no token. */
  lemma WordsDropTrailingSpace(init: string, c: char)
    requires IsWhitespace(c)
    ensures Words(init + [c]) == Words(init)
  {
    WordsAppend(init, [c]);
    WordsAfterSpace(c, []);
    assert [c] + [] == [c];
    assert Words([]) == [];
    assert Words(init) + [] == Words(init);
  }

  /** A run of whitespace in front of the text yields no token. */
  lemma SkipBlank(s: string, rest: string)
    requires AllWhitespace(s)
    ensures Words(s + rest) == Words(rest)
  {
    DropSpaceOfWhitespace(s);
    WordsAppendBlank(s, rest);
    assert Words(s) == [];
  }

  /** A word, then a non-empty run of whitespace: the word is the first token and the run is skipped. */
  lemma WordThenBlank(w: string, sep: string, rest: string)
    requires IsWord(w)
    requires sep != [] && AllWhitespace(sep)
    ensures Words(w + (sep + rest)) == [w] + Words(rest)
  {
    assert (sep + rest)[0] == sep[0];
    WordsOfWordThen(w, sep + rest);
    SkipBlank(sep, rest);
  }
}
