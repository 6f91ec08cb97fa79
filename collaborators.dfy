/** The facts the permission core fetches from services it does not own
    (repository metadata, share registry, group membership, object store).
    Each service is an abstract, deterministic function of its arguments;
    an absent answer (a NULL return) is `None`. */
module Collaborators {
  import opened Wrappers
  import opened DirentOrder

  type RepoId = string
  type UserId = string
  type GroupId = int

  /** `SeafVirtRepo`: a virtual repo is the sub-tree at `path` of `originRepoId`. */
  datatype VirtInfo = VirtInfo(originRepoId: RepoId, path: string)

  /** The parts of a `SeafRepo` record the listing reads. */
  datatype RepoRecord = RepoRecord(storeId: string, version: int, isVirtual: bool)

  datatype Env = Env(
    /** `seaf->cloud_mode` */
    cloudMode: bool,
    /** `seaf_repo_manager_get_repo_owner` */
    repoOwner: RepoId -> Option<UserId>,
    /** `seaf_repo_manager_get_virtual_repo_info` */
    virtualInfo: RepoId -> Option<VirtInfo>,
    /** `seaf_share_manager_check_permission`: the personal share to a user */
    personalShare: (RepoId, UserId) -> Option<string>,
    /** `ccnet_group_manager_get_groups_by_user`, as the ids of the groups */
    groupsOf: UserId -> seq<GroupId>,
    /** the `permission` column of the RepoGroup rows for a repo and a group
        list, in the order the database delivers them (only the rows delivered
        before a database error, if one occurs) */
    groupShareRows: (RepoId, seq<GroupId>) -> seq<string>,
    /** `seaf_repo_manager_get_inner_pub_repo_perm` */
    innerPubPerm: RepoId -> Option<string>,
    /** `seaf_share_manager_get_shared_dirs_to_user`: path -> permission */
    sharedDirsToUser: (RepoId, UserId) -> Option<map<string, string>>,
    /** `seaf_share_manager_get_shared_dirs_to_group`: path -> permission */
    sharedDirsToGroup: (RepoId, seq<GroupId>) -> Option<map<string, string>>,
    /** `seaf_repo_manager_get_repo` */
    repo: RepoId -> Option<RepoRecord>,
    /** `seaf_fs_manager_get_seafdir(store_id, version, dir_id)`: the entries */
    seafDir: (string, int, string) -> Option<seq<Dirent>>,
    /** `seaf_share_manager_get_shared_sub_dirs(store_id, dir_path)`: the keys */
    sharedSubDirs: (string, string) -> Option<set<string>>,
    /** `is_object_id_valid` */
    objectIdValid: string -> bool)
}
