/** The permission resolver: combines ownership, personal shares, group
    shares, the public share and, for a virtual repo, path-scoped shares on
    its origin into one permission string ("rw", "r", ...) or none. */
module RepoPerm {
  import opened Wrappers
  import opened Collaborators
  import opened Trim
  import opened DirPerm
  import opened ShareRows

  /** `rtrim` applied to a grant that is present. */
  function Trimmed(p: Option<string>): (r: Option<string>)
    ensures r.Some? <==> p.Some?
    ensures r.Some? ==> r.value <= p.value && !EndsWithSpace(r.value)
    ensures r.Some? ==> forall i :: |r.value| <= i < |p.value| ==> IsSpace(p.value[i])
  {
    if p.Some? then Some(TrimRight(p.value)) else None
  }

  /** `check_group_permission_by_user`: no groups means no query and no
      permission; otherwise the merge of the rows the database delivered. */
  function GroupPermissionByUser(env: Env, repo: RepoId, user: UserId): (r: Option<string>)
    ensures r == None || r == Some("r") || r == Some("rw")
    ensures r == Some("rw") <==>
              env.groupsOf(user) != [] && "rw" in env.groupShareRows(repo, env.groupsOf(user))
    ensures r.None? <==>
              env.groupsOf(user) == [] ||
              ("rw" !in env.groupShareRows(repo, env.groupsOf(user)) &&
               "r" !in env.groupShareRows(repo, env.groupsOf(user)))
  {
    var groups := env.groupsOf(user);
    if groups == [] then None else GroupMerge(env.groupShareRows(repo, groups))
  }

  /** `check_repo_share_permission`: personal share, else group share, else
      (outside cloud mode only) the public share; every result is trimmed. */
  function RepoSharePermission(env: Env, repo: RepoId, user: UserId): (r: Option<string>)
    ensures r.Some? ==> !EndsWithSpace(r.value)
    ensures r.None? <==>
              env.personalShare(repo, user).None? &&
              GroupPermissionByUser(env, repo, user).None? &&
              (env.cloudMode || env.innerPubPerm(repo).None?)
  {
    var personal := env.personalShare(repo, user);
    if personal.Some? then Trimmed(personal)
    else
      var group := GroupPermissionByUser(env, repo, user);
      if group.Some? then Trimmed(group)
      else if !env.cloudMode then Trimmed(env.innerPubPerm(repo))
      else None
  }

  /** A personal share decides alone: two deployments that agree on it agree on
      the result, whatever their group and public shares and cloud mode. */
  lemma PersonalShareDecides(e1: Env, e2: Env, repo: RepoId, user: UserId)
    requires e1.personalShare(repo, user).Some?
    requires e1.personalShare(repo, user) == e2.personalShare(repo, user)
    ensures RepoSharePermission(e1, repo, user) == RepoSharePermission(e2, repo, user)
    ensures RepoSharePermission(e1, repo, user) == Some(TrimRight(e1.personalShare(repo, user).value))
  {
  }

  /** A personal "r" beats a group "rw". */
  lemma PersonalReadBeatsGroupWrite(env: Env, repo: RepoId, user: UserId)
    requires env.personalShare(repo, user) == Some("r")
    requires env.groupsOf(user) != [] && "rw" in env.groupShareRows(repo, env.groupsOf(user))
    ensures GroupPermissionByUser(env, repo, user) == Some("rw")
    ensures RepoSharePermission(env, repo, user) == Some("r")
  {
    assert !EndsWithSpace("r");
  }

  /** Without a personal share the group result wins over the public share. */
  lemma GroupShareBeforePublic(env: Env, repo: RepoId, user: UserId)
    requires env.personalShare(repo, user).None?
    requires GroupPermissionByUser(env, repo, user).Some?
    ensures RepoSharePermission(env, repo, user) == GroupPermissionByUser(env, repo, user)
  {
    var g := GroupPermissionByUser(env, repo, user);
    assert !EndsWithSpace("r") && !EndsWithSpace("rw");
    TrimRightKeepsTrimmed(g.value);
  }

  /** In cloud mode the public share is never consulted: two deployments that
      differ only there agree, and with no personal or group share the result
      is none. */
  lemma CloudModeIgnoresPublic(e1: Env, e2: Env, repo: RepoId, user: UserId)
    requires e1.cloudMode && e2.cloudMode
    requires e1.personalShare(repo, user) == e2.personalShare(repo, user)
    requires e1.groupsOf(user) == e2.groupsOf(user)
    requires e1.groupShareRows(repo, e1.groupsOf(user)) == e2.groupShareRows(repo, e2.groupsOf(user))
    ensures RepoSharePermission(e1, repo, user) == RepoSharePermission(e2, repo, user)
    ensures e1.personalShare(repo, user).None? && GroupPermissionByUser(e1, repo, user).None? ==>
              RepoSharePermission(e1, repo, user).None?
  {
  }

  /** Outside cloud mode, with no personal or group share, the result is the
      trimmed public share. */
  lemma PublicShareOutsideCloud(env: Env, repo: RepoId, user: UserId)
    requires !env.cloudMode
    requires env.personalShare(repo, user).None? && GroupPermissionByUser(env, repo, user).None?
    ensures RepoSharePermission(env, repo, user) == Trimmed(env.innerPubPerm(repo))
  {
  }

  /** `check_perm_on_parent_repo`: the user's path grants on the origin at the
      mount path, else the path grants of the user's groups. A missing user
      map or an empty group list ends the search with nothing. */
  function PermOnParentRepo(env: Env, origin: RepoId, user: UserId, vpath: string): (r: Option<string>)
    requires ValidPath(vpath)
    ensures r.Some? ==>
              (env.sharedDirsToUser(origin, user).Some? &&
               r == LongestPrefixPerm(env.sharedDirsToUser(origin, user).value, vpath)) ||
              (env.groupsOf(user) != [] && env.sharedDirsToGroup(origin, env.groupsOf(user)).Some? &&
               r == LongestPrefixPerm(env.sharedDirsToGroup(origin, env.groupsOf(user)).value, vpath))
  {
    var userPerms := env.sharedDirsToUser(origin, user);
    if userPerms.None? then None
    else
      var fromUser := if |userPerms.value| > 0 then LongestPrefixPerm(userPerms.value, vpath) else None;
      if fromUser.Some? then fromUser
      else
        var groups := env.groupsOf(user);
        if groups == [] then None
        else
          var groupPerms := env.sharedDirsToGroup(origin, groups);
          if groupPerms.None? then None
          else if |groupPerms.value| > 0 then LongestPrefixPerm(groupPerms.value, vpath)
          else None
  }

  /** A user path grant at the mount path wins over every group path grant. */
  lemma UserPathGrantFirst(env: Env, origin: RepoId, user: UserId, vpath: string)
    requires ValidPath(vpath)
    requires env.sharedDirsToUser(origin, user).Some?
    requires LongestPrefixPerm(env.sharedDirsToUser(origin, user).value, vpath).Some?
    ensures PermOnParentRepo(env, origin, user, vpath) ==
              LongestPrefixPerm(env.sharedDirsToUser(origin, user).value, vpath)
  {
  }

  /** Without a user path-grant map, or without groups once the user map gave
      nothing, group path grants are not consulted. */
  lemma ParentSearchStops(env: Env, origin: RepoId, user: UserId, vpath: string)
    requires ValidPath(vpath)
    ensures env.sharedDirsToUser(origin, user).None? ==> PermOnParentRepo(env, origin, user, vpath).None?
    ensures env.sharedDirsToUser(origin, user).Some? &&
            LongestPrefixPerm(env.sharedDirsToUser(origin, user).value, vpath).None? &&
            env.groupsOf(user) == [] ==>
              PermOnParentRepo(env, origin, user, vpath).None?
  {
  }

  /** With a user map that gives nothing and some groups, the result is the
      longest-prefix match in the group path grants. */
  lemma GroupPathGrantsNext(env: Env, origin: RepoId, user: UserId, vpath: string)
    requires ValidPath(vpath)
    requires env.sharedDirsToUser(origin, user).Some?
    requires LongestPrefixPerm(env.sharedDirsToUser(origin, user).value, vpath).None?
    requires env.groupsOf(user) != []
    requires env.sharedDirsToGroup(origin, env.groupsOf(user)).Some?
    ensures PermOnParentRepo(env, origin, user, vpath) ==
              LongestPrefixPerm(env.sharedDirsToGroup(origin, env.groupsOf(user)).value, vpath)
  {
  }

  /** `check_virtual_repo_permission`: the origin's owner gets "rw"; then the
      path grants at the mount path; then whole-origin share resolution. */
  function VirtualRepoPermission(env: Env, origin: RepoId, user: UserId, vpath: string): (r: Option<string>)
    requires ValidPath(vpath)
    ensures env.repoOwner(origin) == Some(user) ==> r == Some("rw")
    ensures env.repoOwner(origin) != Some(user) && PermOnParentRepo(env, origin, user, vpath).Some? ==>
              r == PermOnParentRepo(env, origin, user, vpath)
    ensures env.repoOwner(origin) != Some(user) && PermOnParentRepo(env, origin, user, vpath).None? ==>
              r == RepoSharePermission(env, origin, user)
    ensures r.None? <==>
              env.repoOwner(origin) != Some(user) &&
              PermOnParentRepo(env, origin, user, vpath).None? &&
              RepoSharePermission(env, origin, user).None?
  {
    if env.repoOwner(origin) == Some(user) then Some("rw")
    else
      var fromPaths := PermOnParentRepo(env, origin, user, vpath);
      if fromPaths.Some? then fromPaths
      else RepoSharePermission(env, origin, user)
  }

  /** The mount path of a virtual repo is a path the lookup accepts. */
  predicate MountPathValid(env: Env, repo: RepoId)
  {
    env.virtualInfo(repo).Some? ==> ValidPath(env.virtualInfo(repo).value.path)
  }

  /** `seaf_repo_manager_check_permission`. */
  function RepoPermission(env: Env, repo: RepoId, user: UserId): (r: Option<string>)
    requires MountPathValid(env, repo)
    ensures env.virtualInfo(repo).None? && r.Some? ==> env.repoOwner(repo).Some?
    ensures env.virtualInfo(repo).None? && env.repoOwner(repo) == Some(user) ==> r == Some("rw")
    ensures (env.virtualInfo(repo).Some? &&
             env.repoOwner(env.virtualInfo(repo).value.originRepoId) == Some(user)) ==> r == Some("rw")
  {
    var vinfo := env.virtualInfo(repo);
    if vinfo.Some? then
      VirtualRepoPermission(env, vinfo.value.originRepoId, user, vinfo.value.path)
    else
      var owner := env.repoOwner(repo);
      if owner.None? then None
      else if owner.value == user then Some("rw")
      else RepoSharePermission(env, repo, user)
  }

  /** A virtual repo is decided by the virtual checker alone, on its origin and
      mount path; its own owner and shares play no part. */
  lemma VirtualRepoDispatch(env: Env, repo: RepoId, user: UserId)
    requires MountPathValid(env, repo)
    requires env.virtualInfo(repo).Some?
    ensures RepoPermission(env, repo, user) ==
              VirtualRepoPermission(env, env.virtualInfo(repo).value.originRepoId, user,
                                    env.virtualInfo(repo).value.path)
  {
  }

  /** The owner of the origin has "rw" on every virtual repo of it, whatever
      its mount path. */
  lemma OriginOwnerHasReadWrite(env: Env, repo: RepoId, user: UserId)
    requires MountPathValid(env, repo)
    requires env.virtualInfo(repo).Some?
    requires env.repoOwner(env.virtualInfo(repo).value.originRepoId) == Some(user)
    ensures RepoPermission(env, repo, user) == Some("rw")
  {
  }

  /** For a repo that is not virtual: no recorded owner means no permission,
      whatever is shared; the owner has "rw"; anyone else gets the share
      resolution. */
  lemma NonVirtualDispatch(env: Env, repo: RepoId, user: UserId)
    requires env.virtualInfo(repo).None?
    ensures env.repoOwner(repo).None? ==> RepoPermission(env, repo, user).None?
    ensures env.repoOwner(repo) == Some(user) ==> RepoPermission(env, repo, user) == Some("rw")
    ensures env.repoOwner(repo).Some? && env.repoOwner(repo) != Some(user) ==>
              RepoPermission(env, repo, user) == RepoSharePermission(env, repo, user)
  {
  }

  /** The resolver only hands out "rw" or a permission some source recorded:
      for a repo that is not virtual, a result other than the owner's "rw" is
      the trimmed personal, group or public share. */
  lemma NonVirtualResultOrigin(env: Env, repo: RepoId, user: UserId)
    requires env.virtualInfo(repo).None?
    requires RepoPermission(env, repo, user).Some?
    ensures env.repoOwner(repo).Some?
    ensures RepoPermission(env, repo, user) == Some("rw") ||
            RepoPermission(env, repo, user) == Trimmed(env.personalShare(repo, user)) ||
            RepoPermission(env, repo, user) == GroupPermissionByUser(env, repo, user) ||
            (!env.cloudMode && RepoPermission(env, repo, user) == Trimmed(env.innerPubPerm(repo)))
  {
    var g := GroupPermissionByUser(env, repo, user);
    if g.Some? {
      assert !EndsWithSpace("r") && !EndsWithSpace("rw");
      TrimRightKeepsTrimmed(g.value);
    }
  }
}
