/** The string helpers the request path uses: Go's `strings.TrimLeft`,
    `strings.TrimRight`, `strings.TrimSpace` and, for Unix paths,
    `filepath.Base`. */
module Paths {

  /** `strings.TrimLeft(s, cutset)`: drop leading characters of the set. */
  function TrimLeft(s: string, cut: set<char>): (t: string)
    ensures |t| <= |s| && t == s[|s| - |t|..]
    ensures t == [] || t[0] !in cut
  {
    if s != [] && s[0] in cut then TrimLeft(s[1..], cut) else s
  }

  /** `strings.TrimRight(s, cutset)`: drop trailing characters of the set. */
  function TrimRight(s: string, cut: set<char>): (t: string)
    ensures |t| <= |s| && t == s[..|t|]
    ensures t == [] || t[|t| - 1] !in cut
  {
    if s != [] && s[|s| - 1] in cut then TrimRight(s[..|s| - 1], cut) else s
  }

  /** `TrimLeft` removes only characters of the set. */
  lemma {:induction false} TrimLeftOnlyCut(s: string, cut: set<char>)
    ensures var t := TrimLeft(s, cut);
      forall i :: 0 <= i < |s| - |t| ==> s[i] in cut
  {
    if s != [] && s[0] in cut {
      var rest := s[1..];
      TrimLeftOnlyCut(rest, cut);
      assert forall i :: 1 <= i < |s| ==> s[i] == rest[i - 1];
    }
  }

  /** `TrimRight` removes only characters of the set. */
  lemma {:induction false} TrimRightOnlyCut(s: string, cut: set<char>)
    ensures var t := TrimRight(s, cut);
      forall i :: |t| <= i < |s| ==> s[i] in cut
  {
    if s != [] && s[|s| - 1] in cut {
      var init := s[..|s| - 1];
      TrimRightOnlyCut(init, cut);
      assert forall i :: 0 <= i < |init| ==> s[i] == init[i];
    }
  }

  /** The characters `unicode.IsSpace` accepts. */
  const WhiteSpace: set<char> := {
    '\t', '\n', '\U{0B}', '\U{0C}', '\r', ' ', '\U{85}', '\U{A0}', '\U{1680}',
    '\U{2000}', '\U{2001}', '\U{2002}', '\U{2003}', '\U{2004}', '\U{2005}',
    '\U{2006}', '\U{2007}', '\U{2008}', '\U{2009}', '\U{200A}',
    '\U{2028}', '\U{2029}', '\U{202F}', '\U{205F}', '\U{3000}'
  }

  /** `strings.TrimSpace`. */
  function TrimSpace(s: string): string {
    TrimRight(TrimLeft(s, WhiteSpace), WhiteSpace)
  }

  /** The link identifier `ServeHTTP` reads from a URL path: leading and
      trailing '/' removed, then surrounding white space. */
  function RequestId(urlPath: string): string {
    TrimSpace(TrimRight(TrimLeft(urlPath, {'/'}), {'/'}))
  }

  /** Trimming both ends with the same set leaves neither end in the set. */
  lemma TrimmedEnds(s: string, cut: set<char>)
    ensures var t := TrimRight(TrimLeft(s, cut), cut);
      t == [] || (t[0] !in cut && t[|t| - 1] !in cut)
  {
    var l := TrimLeft(s, cut);
    var t := TrimRight(l, cut);
    if t != [] {
      assert t[0] == l[0];
    }
  }

  /** The identifier has no white space at either end. */
  lemma RequestIdTrimmed(urlPath: string)
    ensures var id := RequestId(urlPath);
      id == [] || (id[0] !in WhiteSpace && id[|id| - 1] !in WhiteSpace)
  {
    TrimmedEnds(TrimRight(TrimLeft(urlPath, {'/'}), {'/'}), WhiteSpace);
  }

  /** An identifier a URL can carry unchanged: non-empty, and neither end is
      a '/' or white space. */
  predicate PlainId(id: string) {
    id != [] && id[0] != '/' && id[|id| - 1] != '/' && id[0] !in WhiteSpace && id[|id| - 1] !in WhiteSpace
  }

  /** Trimming a string whose first character is outside the set leaves
      its left end alone. */
  lemma TrimLeftKeeps(s: string, cut: set<char>)
    requires s == [] || s[0] !in cut
    ensures TrimLeft(s, cut) == s
  {
  }

  /** Trimming a string whose last character is outside the set leaves its
      right end alone. */
  lemma TrimRightKeeps(s: string, cut: set<char>)
    requires s == [] || s[|s| - 1] !in cut
    ensures TrimRight(s, cut) == s
  {
  }

  /** A plain identifier is its own `TrimSpace`. */
  lemma PlainIdSpaceFree(id: string)
    requires PlainId(id)
    ensures TrimSpace(id) == id
  {
    TrimLeftKeeps(id, WhiteSpace);
    TrimRightKeeps(id, WhiteSpace);
  }

  /** A URL path that is a plain identifier once its slashes are trimmed
      is read as that identifier. */
  lemma RequestIdOfSlashed(urlPath: string, id: string)
    requires PlainId(id) && TrimRight(TrimLeft(urlPath, {'/'}), {'/'}) == id
    ensures RequestId(urlPath) == id
  {
    PlainIdSpaceFree(id);
  }

  /** A plain identifier requested as "/<id>" is read back as itself. */
  lemma RequestIdOfPlain(id: string)
    requires PlainId(id)
    ensures RequestId("/" + id) == id
  {
    var s := "/" + id;
    assert TrimRight(TrimLeft(s, {'/'}), {'/'}) == id by {
      assert s[0] == '/' && s[1..] == id;
      TrimLeftKeeps(id, {'/'});
      TrimRightKeeps(id, {'/'});
    }
    RequestIdOfSlashed(s, id);
  }

  /** So is "/<id>/". */
  lemma RequestIdOfPlainDir(id: string)
    requires PlainId(id)
    ensures RequestId("/" + id + "/") == id
  {
    var v := id + "/";
    var u := "/" + id + "/";
    assert TrimRight(TrimLeft(u, {'/'}), {'/'}) == id by {
      assert TrimLeft(u, {'/'}) == v by {
        assert u[0] == '/' && u[1..] == v;
        TrimLeftKeeps(v, {'/'});
      }
      assert TrimRight(v, {'/'}) == id by {
        assert v[|v| - 1] == '/' && v[..|v| - 1] == id;
        TrimRightKeeps(id, {'/'});
      }
    }
    RequestIdOfSlashed(u, id);
  }

  /** The last element of a path that does not end in '/'. */
  function AfterLastSlash(s: string): (t: string)
    ensures |t| <= |s| && t == s[|s| - |t|..]
    ensures '/' !in t
    ensures |t| == |s| || s[|s| - |t| - 1] == '/'
  {
    if s == [] || s[|s| - 1] == '/' then []
    else AfterLastSlash(s[..|s| - 1]) + [s[|s| - 1]]
  }

  /** `filepath.Base` on Unix: "." for the empty path, "/" for a path of
      slashes only, otherwise the last element once trailing slashes are
      gone. */
  function Base(path: string): (name: string)
    ensures name != []
    ensures name == "/" || '/' !in name
  {
    if path == [] then "."
    else
      var trimmed := TrimRight(path, {'/'});
      if trimmed == [] then "/" else AfterLastSlash(trimmed)
  }

  /** The attachment name of a file path with a directory part is its last
      element: the path is that name preceded by a directory ending in '/'. */
  lemma BaseOfFilePath(path: string)
    requires '/' in path && path[|path| - 1] != '/'
    ensures |Base(path)| < |path|
    ensures var dir := path[..|path| - |Base(path)|];
      path == dir + Base(path) && dir[|dir| - 1] == '/'
  {
    var name := AfterLastSlash(path);
    assert Base(path) == name by {
      TrimRightKeeps(path, {'/'});
    }
    assert |name| < |path| by {
      assert name != path;
    }
    assert path == path[..|path| - |name|] + name;
  }
}
