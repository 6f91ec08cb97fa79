/** `get_dir_perm`: longest-prefix lookup of a path in a map from shared
    directory paths to permissions. The path is looked up as it is, then with
    its last `/component` removed, and so on until nothing is left. */
module DirPerm {
  import opened Wrappers

  /** Paths the lookup handles: empty or absolute. A non-empty path without a
      `/` would make the truncation dereference a missing slash. */
  predicate ValidPath(p: string)
  {
    p == "" || p[0] == '/'
  }

  /** `g_strrstr(s, "/")`: the position of the last slash. */
  function LastSlash(s: string): (k: nat)
    requires '/' in s
    ensures k < |s| && s[k] == '/'
    ensures forall i :: k < i < |s| ==> s[i] != '/'
  {
    if s[|s| - 1] == '/' then |s| - 1
    else
      assert '/' in s[..|s| - 1] by {
        var i :| 0 <= i < |s| && s[i] == '/';
        assert s[..|s| - 1][i] == '/';
      }
      LastSlash(s[..|s| - 1])
  }

  /** `path[..j]` is one of the keys the lookup tries: the path itself, or a
      non-empty prefix that is followed by a slash. */
  predicate IsCut(path: string, j: int)
  {
    0 < j <= |path| && (j == |path| || path[j] == '/')
  }

  /** `path[..j]` is the longest tried key present in `perms`. */
  ghost predicate LongestMatch(perms: map<string, string>, path: string, j: int)
  {
    IsCut(path, j) && path[..j] in perms &&
    forall j' :: j < j' && IsCut(path, j') ==> path[..j'] !in perms
  }

  /** Removing the last component keeps exactly the shorter tried keys. */
  lemma ParentCuts(path: string)
    requires ValidPath(path) && path != ""
    ensures forall j :: IsCut(path[..LastSlash(path)], j) <==> IsCut(path, j) && j < |path|
    ensures forall j :: 0 <= j <= LastSlash(path) ==> path[..LastSlash(path)][..j] == path[..j]
  {
    var k := LastSlash(path);
    forall j ensures IsCut(path[..k], j) <==> IsCut(path, j) && j < |path| {
      if IsCut(path, j) && j < |path| {
        assert j <= k;
      }
    }
  }

  /** The permission `get_dir_perm` returns: the value at the longest tried
      key, and nothing when no tried key is present. */
  function LongestPrefixPerm(perms: map<string, string>, path: string): (r: Option<string>)
    requires ValidPath(path)
    ensures r.None? <==> forall j :: IsCut(path, j) ==> path[..j] !in perms
    ensures r.Some? ==> exists j :: LongestMatch(perms, path, j) && r.value == perms[path[..j]]
    decreases |path|
  {
    if path == "" then None
    else if path in perms then
      assert path[..|path|] == path;
      Some(perms[path])
    else
      ParentCuts(path);
      assert path[..|path|] == path;
      LongestPrefixPerm(perms, path[..LastSlash(path)])
  }

  /** The value of a given key wins over that of every shorter key. */
  lemma LongerKeyWins(perms: map<string, string>, path: string, j: int)
    requires ValidPath(path)
    requires IsCut(path, j) && path[..j] in perms
    ensures LongestPrefixPerm(perms, path).Some?
    ensures exists j' :: j <= j' && LongestMatch(perms, path, j') &&
              LongestPrefixPerm(perms, path).value == perms[path[..j']]
  {
    var r := LongestPrefixPerm(perms, path);
    var j' :| LongestMatch(perms, path, j') && r.value == perms[path[..j']];
  }

  /** `get_dir_perm(perms, path)`: loops from the whole path towards the root,
      cutting the working copy at its last slash after every failed lookup. */
  method GetDirPerm(perms: map<string, string>, path: string) returns (perm: Option<string>)
    requires ValidPath(path)
    ensures perm == LongestPrefixPerm(perms, path)
  {
    var tmp := path;
    perm := None;
    while tmp != ""
      invariant ValidPath(tmp)
      invariant perm.None?
      invariant LongestPrefixPerm(perms, tmp) == LongestPrefixPerm(perms, path)
      decreases |tmp|
    {
      perm := if tmp in perms then Some(perms[tmp]) else None;
      if perm.Some? {
        break;
      }
      var slash := LastSlash(tmp);
      tmp := tmp[..slash];
    }
  }

  /** A grant on `/a/b` shadows one on `/a` for `/a/b/c`; a grant on `/a`
      still applies to `/a/x`. */
  lemma LongestPrefixExamples()
    ensures LongestPrefixPerm(map["/a" := "r", "/a/b" := "rw"], "/a/b/c") == Some("rw")
    ensures LongestPrefixPerm(map["/a" := "r", "/a/b" := "rw"], "/a/x") == Some("r")
    ensures LongestPrefixPerm(map["/a/b" := "rw"], "/a") == None
  {
    var m := map["/a" := "r", "/a/b" := "rw"];
    assert LastSlash("/a/b/c") == 4;
    assert "/a/b/c"[..4] == "/a/b";
    assert LastSlash("/a/x") == 2;
    assert "/a/x"[..2] == "/a";
    assert LastSlash("/a") == 0;
    assert "/a"[..0] == "";
  }
}
