/**
 * Rust's `Path::file_name` and `Path::extension` on Unix, over path text.
 * The path is split at '/'; empty and "." components are skipped; the final
 * component is the file name unless it is "..". The extension is the text
 * after the last '.' of the file name, provided that '.' is not the name's
 * first character.
 */
module Paths {
  import opened Base

  /** The text after the last occurrence of c in s; all of s when c does not occur. */
  function AfterLast(s: string, c: char): (t: string)
    ensures |t| <= |s|
    ensures forall k :: 0 <= k < |t| ==> t[k] != c
    ensures |t| < |s| ==> s[|s| - |t| - 1] == c
  {
    if s == [] then []
    else if s[|s| - 1] == c then []
    else
      var init := s[..|s| - 1];
      var t := AfterLast(init, c);
      assert |t| < |init| ==> init[|init| - |t| - 1] == s[|s| - |t| - 2];
      t + [s[|s| - 1]]
  }

  /** AfterLast keeps a suffix of s. */
  lemma {:induction false} AfterLastSuffix(s: string, c: char)
    ensures var t := AfterLast(s, c);
      t == s[|s| - |t|..]
    decreases |s|
  {
    if s != [] && s[|s| - 1] != c {
      var init := s[..|s| - 1];
      AfterLastSuffix(init, c);
      var t := AfterLast(init, c);
      assert init[|init| - |t|..] + [s[|s| - 1]] == s[|s| - |t| - 1..];
    }
  }

  /** The last component of the path text, possibly empty. */
  function LastComponent(p: string): string {
    AfterLast(p, '/')
  }

  /** Components that `Path::components` skips: empty ones and ".". */
  predicate Skipped(seg: string) {
    seg == [] || seg == "."
  }

  /** The path text before the separator that opens its last component. */
  function Parent(p: string): (r: string)
    requires |LastComponent(p)| < |p|
    ensures |r| < |p|
  {
    p[..|p| - |LastComponent(p)| - 1]
  }

  /** The last normal component of the path, if the path ends in one. */
  function FileName(p: string): (r: Option<string>)
    ensures r.Some? ==> r.value != [] && r.value != "." && r.value != ".."
    ensures r.Some? ==> forall k :: 0 <= k < |r.value| ==> r.value[k] != '/'
    decreases |p|
  {
    var seg := LastComponent(p);
    if Skipped(seg) then
      if |seg| == |p| then None else FileName(Parent(p))
    else if seg == ".." then None
    else Some(seg)
  }

  /** What `Path::extension` returns for the path. */
  function Extension(p: string): (r: Option<string>)
    ensures r.Some? ==> forall k :: 0 <= k < |r.value| ==> r.value[k] != '/' && r.value[k] != '.'
  {
    match FileName(p)
    case None => None
    case Some(name) =>
      var after := AfterLast(name, '.');
      // no '.' at all, or the only '.' opens the name (".bashrc")
      if |after| + 1 >= |name| then None
      else
        AfterLastSuffix(name, '.');
        assert forall k :: 0 <= k < |after| ==> after[k] == name[|name| - |after| + k];
        Some(after)
  }

  /** AfterLast reads the string from its end. */
  lemma AfterLastSnoc(s: string, x: char, c: char)
    ensures AfterLast(s + [x], c) == if x == c then [] else AfterLast(s, c) + [x]
  {
    assert (s + [x])[..|s + [x]| - 1] == s;
  }

  lemma {:induction false} AfterLastAppend(q: string, p: string, c: char)
    requires q == [] || q[|q| - 1] == c
    ensures AfterLast(q + p, c) == AfterLast(p, c)
    decreases |p|
  {
    if p == [] {
      assert q + p == q;
      if q != [] {
        assert q == q[..|q| - 1] + [c];
        AfterLastSnoc(q[..|q| - 1], c, c);
      }
    } else {
      var init, x := p[..|p| - 1], p[|p| - 1];
      assert p == init + [x];
      assert q + p == (q + init) + [x];
      AfterLastSnoc(q + init, x, c);
      AfterLastSnoc(init, x, c);
      AfterLastAppend(q, init, c);
    }
  }

  /** Putting a directory in front of a path that names a file keeps that file name. */
  lemma {:induction false} FileNameAppend(q: string, p: string)
    requires q == [] || q[|q| - 1] == '/'
    requires FileName(p).Some?
    ensures FileName(q + p) == FileName(p)
    decreases |p|
  {
    AfterLastAppend(q, p, '/');
    var seg := LastComponent(p);
    assert LastComponent(q + p) == seg;
    if Skipped(seg) {
      var p' := Parent(p);
      assert Parent(q + p) == q + p';
      FileNameAppend(q, p');
    }
  }

  /** Putting a directory in front of a path keeps its extension. */
  lemma ExtensionAppend(q: string, p: string)
    requires q == [] || q[|q| - 1] == '/'
    requires Extension(p).Some?
    ensures Extension(q + p) == Extension(p)
  {
    FileNameAppend(q, p);
  }

  /** s does not contain c. */
  predicate Free(s: string, c: char) {
    forall k :: 0 <= k < |s| ==> s[k] != c
  }

  lemma {:induction false} AfterLastNone(s: string, c: char)
    requires Free(s, c)
    ensures AfterLast(s, c) == s
    decreases |s|
  {
    if s != [] {
      AfterLastNone(s[..|s| - 1], c);
    }
  }

  /** A path whose last component is stem.e has extension e. */
  lemma ExtensionOfName(dir: string, stem: string, e: string)
    requires dir == [] || dir[|dir| - 1] == '/'
    requires stem != [] && Free(stem, '/')
    requires Free(e, '/') && Free(e, '.')
    requires stem + "." + e != ".."
    ensures Extension(dir + stem + "." + e) == Some(e)
  {
    var name := (stem + ".") + e;
    assert Free(name, '/');
    AfterLastNone(name, '/');
    assert FileName(name) == Some(name);
    AfterLastAppend(stem + ".", e, '.');
    AfterLastNone(e, '.');
    assert AfterLast(name, '.') == e;
    AppendAssoc(dir, stem, ".");
    AppendAssoc(dir, stem + ".", e);
    FileNameAppend(dir, name);
  }

  /** A file name holds no character its path lacks. */
  lemma {:induction false} FileNameFree(p: string, c: char)
    requires Free(p, c) && FileName(p).Some?
    ensures Free(FileName(p).value, c)
    decreases |p|
  {
    var seg := LastComponent(p);
    AfterLastSuffix(p, '/');
    if Skipped(seg) {
      FileNameFree(Parent(p), c);
    } else {
      assert forall k :: 0 <= k < |seg| ==> seg[k] == p[|p| - |seg| + k];
    }
  }

  /** A path without a '.' has no extension. */
  lemma NoDotNoExtension(p: string)
    requires Free(p, '.')
    ensures Extension(p) == None
  {
    if FileName(p).Some? {
      var name := FileName(p).value;
      FileNameFree(p, '.');
      AfterLastNone(name, '.');
    }
  }

  /** A normal last component is the file name, whatever directory precedes it. */
  lemma FileNameOfName(dir: string, name: string)
    requires dir == [] || dir[|dir| - 1] == '/'
    requires name != [] && Free(name, '/') && name != "." && name != ".."
    ensures FileName(dir + name) == Some(name)
  {
    AfterLastNone(name, '/');
    assert FileName(name) == Some(name);
    FileNameAppend(dir, name);
  }

  /**
   * The converse of ExtensionOfName: an extension is the text after the last
   * '.' of the file name, and a non-empty stem comes before that '.'.
   */
  lemma ExtensionIsSuffix(p: string)
    requires Extension(p).Some?
    ensures FileName(p).Some?
    ensures var name, e := FileName(p).value, Extension(p).value;
      && |e| + 1 < |name|
      && name == name[..|name| - |e| - 1] + "." + e
  {
    var name := FileName(p).value;
    var e := AfterLast(name, '.');
    assert Extension(p) == Some(e);
    AfterLastSuffix(name, '.');
    SplitAt(name, |name| - |e| - 1);
  }

  /** A sequence is what comes before index i, the element at i, and what follows. */
  lemma SplitAt<T>(s: seq<T>, i: nat)
    requires i < |s|
    ensures s == s[..i] + [s[i]] + s[i + 1..]
  {
  }

  /** A name whose only '.' is its first character (".bashrc") has no extension. */
  lemma DotFile(dir: string, e: string)
    requires dir == [] || dir[|dir| - 1] == '/'
    requires e != [] && Free(e, '/') && Free(e, '.')
    ensures Extension(dir + ("." + e)) == None
  {
    var name := "." + e;
    assert name[1] == e[0];
    assert Free(name, '/');
    FileNameOfName(dir, name);
    AfterLastAppend(".", e, '.');
    AfterLastNone(e, '.');
  }

  /** A last component without a '.' gives no extension, whatever dots the directories hold. */
  lemma NoDotInName(dir: string, name: string)
    requires dir == [] || dir[|dir| - 1] == '/'
    requires name != [] && Free(name, '/') && Free(name, '.')
    ensures Extension(dir + name) == None
  {
    assert name[0] != '.';
    FileNameOfName(dir, name);
    AfterLastNone(name, '.');
  }

  /** A trailing '/' leaves the file name as it was. */
  lemma FileNameSlash(p: string)
    ensures FileName(p + "/") == FileName(p)
  {
    var q := p + "/";
    AfterLastSnoc(p, '/', '/');
    assert LastComponent(q) == [];
    assert q[..|p|] == p;
    assert Parent(q) == p;
  }

  /** A trailing "/." leaves the file name as it was. */
  lemma FileNameSlashDot(p: string)
    ensures FileName(p + "/.") == FileName(p)
  {
    var q := p + "/.";
    var init := q[..|q| - 1];
    assert init == p + "/";
    assert AfterLast(init, '/') == [];
    assert LastComponent(q) == ".";
    assert Parent(q) == init[..|p|] == p;
  }

  /** A trailing "/.." leaves the path without a file name. */
  lemma FileNameSlashDotDot(p: string)
    ensures FileName(p + "/..") == None
  {
    var q := p + "/..";
    var init := q[..|q| - 1];
    assert init == p + "/.";
    assert init[..|init| - 1] == p + "/";
    assert AfterLast(init, '/') == ".";
    assert LastComponent(q) == "..";
  }

  /**
   * A trailing '/' or "/." leaves the file name as it was (so "/a.png/" is
   * still an asset), and a trailing "/.." leaves the path without one.
   */
  lemma FileNameTrailing(p: string)
    ensures FileName(p + "/") == FileName(p)
    ensures FileName(p + "/.") == FileName(p)
    ensures FileName(p + "/..") == None
  {
    FileNameSlash(p);
    FileNameSlashDot(p);
    FileNameSlashDotDot(p);
  }

  /** The extension outlives a trailing '/' or "/.", as the file name does. */
  lemma ExtensionTrailing(p: string)
    ensures Extension(p + "/") == Extension(p)
    ensures Extension(p + "/.") == Extension(p)
    ensures Extension(p + "/..") == None
  {
    FileNameTrailing(p);
  }
}
