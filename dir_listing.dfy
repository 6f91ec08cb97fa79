/** `seaf_repo_manager_list_dir_with_perm`: a sorted, paginated directory
    listing in which every entry carries the caller's permission and, for the
    owner of a repo that is not virtual, whether a directory is shared. */
module DirListing {
  import opened Wrappers
  import opened DirentOrder
  import opened Collaborators
  import opened RepoPerm

  /** The three ways a listing fails. */
  datatype ListError = AccessDenied | BadRepoId | BadDirId

  /** A `SeafileDirent` as the listing builds it; `isShared` is `None` when the
      property was never set. */
  datatype DecoratedEntry = DecoratedEntry(
    objId: string,
    objName: string,
    kind: EntryKind,
    version: int,
    mtime: int,
    size: int,
    permission: string,
    modifier: string,
    isShared: Option<bool>)

  /** What the listing attaches to every entry it emits. */
  datatype Annotation = Annotation(perm: string, sharedSubDirs: Option<set<string>>, dirPath: string)

  /** The full path of an entry of `dirPath`. */
  function ChildPath(dirPath: string, name: string): (r: string)
    ensures |r| == |dirPath| + |name| + (if dirPath == "/" then 0 else 1)
    ensures dirPath <= r && r[|r| - |name|..] == name
    ensures dirPath != "/" ==> r[|dirPath|] == '/'
  {
    if dirPath == "/" then dirPath + name else dirPath + "/" + name
  }

  /** The entry built for `e`: the snapshot fields, the permission, and a
      shared flag on directories only, when a shared set was fetched. */
  function Decorate(e: Dirent, ann: Annotation): (r: DecoratedEntry)
    ensures Undecorate(r) == e && r.permission == ann.perm
    ensures r.isShared.Some? <==> ann.sharedSubDirs.Some? && e.kind == Dir
    ensures r.isShared.Some? ==> (r.isShared.value <==> ChildPath(ann.dirPath, e.name) in ann.sharedSubDirs.value)
  {
    DecoratedEntry(e.id, e.name, e.kind, e.version, e.mtime, e.size, ann.perm, e.modifier,
      if ann.sharedSubDirs.Some? && e.kind == Dir
      then Some(ChildPath(ann.dirPath, e.name) in ann.sharedSubDirs.value)
      else None)
  }

  /** The snapshot entry a decorated entry was built from. */
  function Undecorate(d: DecoratedEntry): Dirent
  {
    Dirent(d.objId, d.objName, d.kind, d.version, d.mtime, d.size, d.modifier)
  }

  /** The entries emitted for a run of positions: those with a valid id. */
  function Emitted(w: seq<Dirent>, valid: string -> bool, ann: Annotation): (r: seq<DecoratedEntry>)
    ensures |r| <= |w|
  {
    if w == [] then []
    else
      var last := w[|w| - 1];
      Emitted(w[..|w| - 1], valid, ann) + (if valid(last.id) then [Decorate(last, ann)] else [])
  }

  /** A negative offset is read as zero. */
  function ClampOffset(offset: int): (r: nat)
    ensures offset <= r && (r == offset || r == 0)
  {
    if offset < 0 then 0 else offset
  }

  /** Position `k` of the sorted entries lies in the page: at or after the
      clamped offset and, for a positive limit, before offset + limit. */
  predicate InWindow(k: nat, offset: int, limit: int)
    ensures InWindow(k, offset, limit) ==> offset <= k
    ensures limit > 0 && InWindow(k, offset, limit) ==> k - ClampOffset(offset) < limit
  {
    ClampOffset(offset) <= k && (limit <= 0 || k < ClampOffset(offset) + limit)
  }

  function WindowStart(n: nat, offset: int): nat
  {
    if ClampOffset(offset) < n then ClampOffset(offset) else n
  }

  function WindowEnd(n: nat, offset: int, limit: int): nat
  {
    if limit > 0 && ClampOffset(offset) + limit < n then ClampOffset(offset) + limit else n
  }

  /** The page of a sorted entry list. */
  function Page(sorted: seq<Dirent>, offset: int, limit: int, valid: string -> bool, ann: Annotation)
    : (r: seq<DecoratedEntry>)
    ensures |r| <= |sorted|
  {
    Emitted(sorted[WindowStart(|sorted|, offset)..WindowEnd(|sorted|, offset, limit)], valid, ann)
  }

  /** `g_list_reverse`. */
  function Reverse<T>(s: seq<T>): (r: seq<T>)
    ensures |r| == |s|
    ensures forall i :: 0 <= i < |s| ==> r[i] == s[|s| - 1 - i]
  {
    if s == [] then [] else [s[|s| - 1]] + Reverse(s[..|s| - 1])
  }

  lemma {:induction false} ReversePrepend<T>(x: T, s: seq<T>)
    ensures Reverse([x] + s) == Reverse(s) + [x]
    decreases |s|
  {
    if s != [] {
      assert ([x] + s)[..|s|] == [x] + s[..|s| - 1];
      ReversePrepend(x, s[..|s| - 1]);
    }
  }

  /** Prepending while walking forward and reversing at the end gives the
      forward order. */
  lemma {:induction false} ReverseReverse<T>(s: seq<T>)
    ensures Reverse(Reverse(s)) == s
    decreases |s|
  {
    if s != [] {
      ReverseReverse(s[..|s| - 1]);
      ReversePrepend(s[|s| - 1], Reverse(s[..|s| - 1]));
      assert s == s[..|s| - 1] + [s[|s| - 1]];
    }
  }

  /** An emitted entry comes from a position with a valid id, and every
      position with a valid id yields one. */
  lemma {:induction false} EmittedMembers(w: seq<Dirent>, valid: string -> bool, ann: Annotation)
    ensures forall d :: d in Emitted(w, valid, ann) <==>
              exists k :: 0 <= k < |w| && valid(w[k].id) && d == Decorate(w[k], ann)
    decreases |w|
  {
    if w != [] {
      var init := w[..|w| - 1];
      EmittedMembers(init, valid, ann);
      forall d ensures d in Emitted(w, valid, ann) <==>
                 exists k :: 0 <= k < |w| && valid(w[k].id) && d == Decorate(w[k], ann) {
        if exists k :: 0 <= k < |w| && valid(w[k].id) && d == Decorate(w[k], ann) {
          var k :| 0 <= k < |w| && valid(w[k].id) && d == Decorate(w[k], ann);
          if k < |w| - 1 {
            assert init[k] == w[k];
          }
        }
        if d in Emitted(init, valid, ann) {
          var k :| 0 <= k < |init| && valid(init[k].id) && d == Decorate(init[k], ann);
          assert w[k] == init[k];
        }
      }
    }
  }

  /** One entry at most per position. */
  lemma {:induction false} EmittedLength(w: seq<Dirent>, valid: string -> bool, ann: Annotation)
    ensures |Emitted(w, valid, ann)| <= |w|
    decreases |w|
  {
    if w != [] {
      EmittedLength(w[..|w| - 1], valid, ann);
    }
  }

  /** The listing order on decorated entries, read through their snapshot entry. */
  ghost predicate PageOrdered(p: seq<DecoratedEntry>)
  {
    forall i, j :: 0 <= i < j < |p| ==> Le(Undecorate(p[i]), Undecorate(p[j]))
  }

  /** Emitting keeps the sorted order. */
  lemma {:induction false} EmittedOrdered(w: seq<Dirent>, valid: string -> bool, ann: Annotation)
    requires Sorted(w)
    ensures PageOrdered(Emitted(w, valid, ann))
    decreases |w|
  {
    if w != [] {
      var init := w[..|w| - 1];
      var last := w[|w| - 1];
      EmittedOrdered(init, valid, ann);
      if valid(last.id) {
        EmittedMembers(init, valid, ann);
        var e := Emitted(init, valid, ann);
        var p := e + [Decorate(last, ann)];
        forall i | 0 <= i < |e| ensures Le(Undecorate(e[i]), last) {
          assert e[i] in e;
          var k :| 0 <= k < |init| && valid(init[k].id) && e[i] == Decorate(init[k], ann);
          assert Undecorate(e[i]) == w[k];
        }
        forall i, j | 0 <= i < j < |p| ensures Le(Undecorate(p[i]), Undecorate(p[j])) {
          if j == |e| {
            assert Undecorate(p[j]) == last;
          }
        }
      }
    }
  }

  /** The page holds exactly the entries with a valid id at positions inside
      the window, each decorated with the annotation. */
  lemma PageMembers(sorted: seq<Dirent>, offset: int, limit: int, valid: string -> bool, ann: Annotation)
    ensures forall d :: d in Page(sorted, offset, limit, valid, ann) <==>
              exists k :: 0 <= k < |sorted| && InWindow(k, offset, limit) && valid(sorted[k].id) &&
                          d == Decorate(sorted[k], ann)
  {
    var lo, hi := WindowStart(|sorted|, offset), WindowEnd(|sorted|, offset, limit);
    var w := sorted[lo..hi];
    EmittedMembers(w, valid, ann);
    forall d ensures d in Page(sorted, offset, limit, valid, ann) <==>
               exists k :: 0 <= k < |sorted| && InWindow(k, offset, limit) && valid(sorted[k].id) &&
                           d == Decorate(sorted[k], ann) {
      if d in Page(sorted, offset, limit, valid, ann) {
        var k :| 0 <= k < |w| && valid(w[k].id) && d == Decorate(w[k], ann);
        assert sorted[lo + k] == w[k];
        assert InWindow(lo + k, offset, limit);
      }
      if exists k :: 0 <= k < |sorted| && InWindow(k, offset, limit) && valid(sorted[k].id) &&
                     d == Decorate(sorted[k], ann) {
        var k :| 0 <= k < |sorted| && InWindow(k, offset, limit) && valid(sorted[k].id) &&
                 d == Decorate(sorted[k], ann);
        assert w[k - lo] == sorted[k];
      }
    }
  }

  /** What every entry of a page carries: the one permission of the call, the
      fields of its snapshot entry, and a shared flag exactly on directories
      and only when a shared-subdir set was fetched, equal to membership of
      the entry's full path in it. */
  lemma PageAnnotations(sorted: seq<Dirent>, offset: int, limit: int, valid: string -> bool, ann: Annotation)
    ensures forall d :: d in Page(sorted, offset, limit, valid, ann) ==>
              d.permission == ann.perm &&
              (d.isShared.Some? <==> d.kind == Dir && ann.sharedSubDirs.Some?) &&
              (d.isShared.Some? ==>
                 d.isShared.value == (ChildPath(ann.dirPath, d.objName) in ann.sharedSubDirs.value)) &&
              Undecorate(d) in sorted && valid(d.objId)
  {
    PageMembers(sorted, offset, limit, valid, ann);
  }

  /** A page of a sorted list is in listing order and has at most `limit`
      entries when `limit` is positive. */
  lemma PageShape(sorted: seq<Dirent>, offset: int, limit: int, valid: string -> bool, ann: Annotation)
    requires Sorted(sorted)
    ensures PageOrdered(Page(sorted, offset, limit, valid, ann))
    ensures limit > 0 ==> |Page(sorted, offset, limit, valid, ann)| <= limit
  {
    var lo, hi := WindowStart(|sorted|, offset), WindowEnd(|sorted|, offset, limit);
    var w := sorted[lo..hi];
    forall i, j | 0 <= i < j < |w| ensures Le(w[i], w[j]) {
      assert w[i] == sorted[lo + i] && w[j] == sorted[lo + j];
    }
    EmittedOrdered(w, valid, ann);
    EmittedLength(w, valid, ann);
  }

  /** An entry with an invalid id still takes its position: with `limit` 1 and
      an invalid entry at the offset, the page is empty even when valid
      entries follow. */
  lemma InvalidEntryTakesSlot(sorted: seq<Dirent>, offset: int, valid: string -> bool, ann: Annotation)
    requires 0 <= offset < |sorted|
    requires !valid(sorted[offset].id)
    ensures Page(sorted, offset, 1, valid, ann) == []
  {
    assert WindowStart(|sorted|, offset) == offset;
    assert WindowEnd(|sorted|, offset, 1) == offset + 1;
    var w := sorted[offset..offset + 1];
    assert w[..0] == [];
    assert Emitted(w, valid, ann) == Emitted([], valid, ann) + [];
  }

  /** The shared-subdir set is fetched only for the owner of a repo that is
      not virtual. */
  function SharedSubDirsFor(env: Env, repoId: RepoId, repo: RepoRecord, user: UserId, dirPath: string)
    : (r: Option<set<string>>)
    ensures r.Some? ==> !repo.isVirtual && env.repoOwner(repoId) == Some(user)
    ensures !repo.isVirtual && env.repoOwner(repoId) == Some(user) ==> r == env.sharedSubDirs(repo.storeId, dirPath)
  {
    if !repo.isVirtual && env.repoOwner(repoId) == Some(user)
    then env.sharedSubDirs(repo.storeId, dirPath)
    else None
  }

  /** The outcome of `seaf_repo_manager_list_dir_with_perm`. */
  function Listing(env: Env, repoId: RepoId, dirPath: string, dirId: string, user: UserId,
                   offset: int, limit: int): (r: Result<seq<DecoratedEntry>, ListError>)
    requires MountPathValid(env, repoId)
    ensures r.Success? <==>
              RepoPermission(env, repoId, user).Some? && env.repo(repoId).Some? &&
              env.seafDir(env.repo(repoId).value.storeId, env.repo(repoId).value.version, dirId).Some?
  {
    var perm := RepoPermission(env, repoId, user);
    if perm.None? then Failure(AccessDenied)
    else if env.repo(repoId).None? then Failure(BadRepoId)
    else
      var repo := env.repo(repoId).value;
      var dir := env.seafDir(repo.storeId, repo.version, dirId);
      if dir.None? then Failure(BadDirId)
      else
        var ann := Annotation(perm.value, SharedSubDirsFor(env, repoId, repo, user, dirPath), dirPath);
        Success(Page(SortEntries(dir.value), offset, limit, env.objectIdValid, ann))
  }

  /** The listing fails with "Access denied" exactly when no permission
      resolves, then with "Bad repo id", then with "Bad dir id". */
  lemma ListingErrors(env: Env, repoId: RepoId, dirPath: string, dirId: string, user: UserId,
                      offset: int, limit: int)
    requires MountPathValid(env, repoId)
    ensures Listing(env, repoId, dirPath, dirId, user, offset, limit) == Failure(AccessDenied) <==>
              RepoPermission(env, repoId, user).None?
    ensures Listing(env, repoId, dirPath, dirId, user, offset, limit) == Failure(BadRepoId) <==>
              RepoPermission(env, repoId, user).Some? && env.repo(repoId).None?
    ensures Listing(env, repoId, dirPath, dirId, user, offset, limit) == Failure(BadDirId) <==>
              RepoPermission(env, repoId, user).Some? && env.repo(repoId).Some? &&
              env.seafDir(env.repo(repoId).value.storeId, env.repo(repoId).value.version, dirId).None?
  {
  }

  /** A successful listing: every entry carries the resolved permission, is in
      listing order (directories first, then case-insensitive names), and has
      a shared flag only if it is a directory and the caller owns the repo,
      which is not virtual. */
  lemma ListingSuccess(env: Env, repoId: RepoId, dirPath: string, dirId: string, user: UserId,
                       offset: int, limit: int)
    requires MountPathValid(env, repoId)
    requires RepoPermission(env, repoId, user).Some? && env.repo(repoId).Some?
    requires env.seafDir(env.repo(repoId).value.storeId, env.repo(repoId).value.version, dirId).Some?
    ensures Listing(env, repoId, dirPath, dirId, user, offset, limit).Success?
    ensures var out := Listing(env, repoId, dirPath, dirId, user, offset, limit).value;
            PageOrdered(out) &&
            (limit > 0 ==> |out| <= limit) &&
            forall d :: d in out ==>
              Some(d.permission) == RepoPermission(env, repoId, user) &&
              (d.isShared.Some? ==>
                 d.kind == Dir && !env.repo(repoId).value.isVirtual && env.repoOwner(repoId) == Some(user))
  {
    var repo := env.repo(repoId).value;
    var dir := env.seafDir(repo.storeId, repo.version, dirId).value;
    var ann := Annotation(RepoPermission(env, repoId, user).value,
                          SharedSubDirsFor(env, repoId, repo, user, dirPath), dirPath);
    PageShape(SortEntries(dir), offset, limit, env.objectIdValid, ann);
    PageAnnotations(SortEntries(dir), offset, limit, env.objectIdValid, ann);
  }

  /** Walking one more position appends what that position emits. */
  lemma EmittedStep(entries: seq<Dirent>, lo: nat, index: nat, valid: string -> bool, ann: Annotation)
    requires lo <= index < |entries|
    ensures Emitted(entries[lo..index + 1], valid, ann) ==
              Emitted(entries[lo..index], valid, ann) +
              (if valid(entries[index].id) then [Decorate(entries[index], ann)] else [])
  {
    var w := entries[lo..index + 1];
    assert w[..|w| - 1] == entries[lo..index];
  }

  lemma ReverseAppend<T>(s: seq<T>, x: T)
    ensures Reverse(s + [x]) == [x] + Reverse(s)
  {
    assert (s + [x])[..|s|] == s;
  }

  /** The `g_object_new` of one listing entry, then the `is_shared` property
      for a directory when a shared-subdir set was fetched. */
  method NewDecoratedEntry(dent: Dirent, perm: string, shared: Option<set<string>>, dirPath: string)
    returns (d: DecoratedEntry)
    ensures d == Decorate(dent, Annotation(perm, shared, dirPath))
  {
    d := DecoratedEntry(dent.id, dent.name, dent.kind, dent.version, dent.mtime, dent.size,
                        perm, dent.modifier, None);
    if shared.Some? && dent.kind == Dir {
      var curPath := if dirPath == "/" then dirPath + dent.name else dirPath + "/" + dent.name;
      d := d.(isShared := Some(curPath in shared.value));
    }
  }

  /** The walk over the sorted entries in `seaf_repo_manager_list_dir_with_perm`:
      clamps the offset, then walks with a position counter that also counts
      entries skipped for an invalid id, prepending each emitted entry and
      reversing at the end. */
  method WalkEntries(entries: seq<Dirent>, offset: int, limit: int, valid: string -> bool,
                     perm: string, shared: Option<set<string>>, dirPath: string)
    returns (res: seq<DecoratedEntry>)
    ensures res == Page(entries, offset, limit, valid, Annotation(perm, shared, dirPath))
  {
    var off := offset;
    if off < 0 {
      off := 0;
    }
    ghost var ann := Annotation(perm, shared, dirPath);
    ghost var lo := WindowStart(|entries|, offset);
    ghost var hi := WindowEnd(|entries|, offset, limit);

    var index := 0;
    var rev: seq<DecoratedEntry> := [];
    while index < |entries|
      invariant 0 <= index <= |entries|
      invariant limit > 0 ==> index <= off + limit
      invariant index <= lo ==> rev == []
      invariant lo <= index ==> rev == Reverse(Emitted(entries[lo..index], valid, ann))
    {
      if index < off {
        index := index + 1;
        assert entries[lo..lo] == [];
        continue;
      }
      if limit > 0 && index >= off + limit {
        break;
      }
      var dent := entries[index];
      EmittedStep(entries, lo, index, valid, ann);
      if !valid(dent.id) {
        assert Emitted(entries[lo..index + 1], valid, ann) == Emitted(entries[lo..index], valid, ann);
        index := index + 1;
        continue;
      }
      var d := NewDecoratedEntry(dent, perm, shared, dirPath);
      ReverseAppend(Emitted(entries[lo..index], valid, ann), d);
      rev := [d] + rev;
      index := index + 1;
    }
    assert index == hi;
    ReverseReverse(Emitted(entries[lo..hi], valid, ann));
    res := Reverse(rev);
  }

  /** `seaf_repo_manager_list_dir_with_perm`: resolves the permission once,
      fetches the repo and the directory (failing in that order), sorts the
      entries, fetches the shared-subdir set for the owner of a repo that is
      not virtual, and walks the entries. */
  method ListDirWithPerm(env: Env, repoId: RepoId, dirPath: string, dirId: string, user: UserId,
                         offset: int, limit: int)
    returns (res: Result<seq<DecoratedEntry>, ListError>)
    requires MountPathValid(env, repoId)
    ensures res == Listing(env, repoId, dirPath, dirId, user, offset, limit)
  {
    var perm := RepoPermission(env, repoId, user);
    if perm.None? {
      return Failure(AccessDenied);
    }
    var repoRec := env.repo(repoId);
    if repoRec.None? {
      return Failure(BadRepoId);
    }
    var repo := repoRec.value;
    var dir := env.seafDir(repo.storeId, repo.version, dirId);
    if dir.None? {
      return Failure(BadDirId);
    }
    var entries := SortEntries(dir.value);

    var shared: Option<set<string>> := None;
    if !repo.isVirtual {
      var owner := env.repoOwner(repoId);
      if owner.Some? && user == owner.value {
        shared := env.sharedSubDirs(repo.storeId, dirPath);
      }
    }
    assert shared == SharedSubDirsFor(env, repoId, repo, user, dirPath);
    var page := WalkEntries(entries, offset, limit, env.objectIdValid, perm.value, shared, dirPath);
    res := Success(page);
  }
}
