# Seafile repository permission core, in Dafny

This project models `server/repo-perm.c` of seafile-server. That file is the
permission resolver and the permission-annotated directory listing.

- **Resolver** (`RepoPerm`). `seaf_repo_manager_check_permission` turns a
  (repository, user) pair into one permission string or none. It uses this
  priority: owner, then personal share, then group share, then the public
  share (outside cloud mode only). For a virtual repo (a sub-tree of an
  origin repo) it uses a different order: owner of the origin, then the
  user's path grants at the mount path, then the group path grants, then
  whole-origin share resolution. Every personal, group and public share
  result is passed through `rtrim`; path grants are returned as stored.
- **Helpers**. `Trim` models `rtrim`, in place on a NUL-terminated
  `array<char>`. `ShareRows` models the group-row callback
  `check_repo_share_perm_cb` as a loop with an early stop. `DirPerm` models
  `get_dir_perm`, the longest-prefix path lookup, as a loop that cuts the path
  at its last slash.
- **Listing** (`DirentOrder`, `DirListing`). `comp_dirent_func` puts
  directories first, then compares names without regard to ASCII case.
  `seaf_repo_manager_list_dir_with_perm` does the following:
  - resolves the permission once;
  - fails with "Access denied", "Bad repo id" or "Bad dir id";
  - sorts the entries;
  - walks them with a position counter and the offset/limit window, where an
    entry with an invalid id still uses up a position;
  - gives every emitted entry the same permission;
  - marks directories as shared only for the owner of a repo that is not
    virtual;
  - builds the result by prepending and then reversing.

The services the core calls are fields of the datatype
`Collaborators.Env`. Each field is an abstract function of the call's
arguments: owners, virtual-repo info, personal, group and public shares, path
grants, group membership, repo records, directory snapshots, the shared
sub-directory set, and `is_object_id_valid`. `Scenarios` works through small
deployments.

Behaviour of the code worth noting:
- Virtual repos are matched only at their mount path (`vinfo->path`). Sub-paths
  below the mount path are never looked up.
- A missing user path-grant map ends the path search. The group path grants
  are then not consulted, and resolution falls back to whole-origin shares.
- The shared-subdir set is fetched with the repo's `store_id`, not its id.
- Permissions are strings, not a three-level enum. The personal and public
  shares are stored as text and trimmed, so any text can come out of the
  resolver, including the empty string.
- The listing prepends and then reverses. The order it returns is the sorted
  order.

## Model

| member | source | states |
|---|---|---|
| `Trim.TrimRight` | server/repo-perm.c:37-43 | what `rtrim` leaves: a prefix of the input that does not end in white space, with only white space removed after it |
| `Trim.TrimRightIdempotent` | server/repo-perm.c:37-43 | trimming twice equals trimming once |
| `Trim.TrimRightKeepsTrimmed` | server/repo-perm.c:39 | a string with no trailing white space is unchanged |
| `Trim.TrimRightUnique` | server/repo-perm.c:37-43 | the three properties of the trimmed text determine it uniquely |
| `Trim.CLength` | server/repo-perm.c:38 | `strlen`: the index of the first NUL, with no NUL before it |
| `Trim.CLengthAt` | server/repo-perm.c:38 | a NUL with no NUL before it is where `strlen` stops |
| `Trim.IsSpace` | server/repo-perm.c:39 | `isspace` in the C locale: exactly space, tab, newline, vertical tab, form feed and carriage return |
| `Trim.RTrim` | server/repo-perm.c:37-43 | in place: the buffer then holds the trimmed C string; NULs are written exactly over the removed white space; every other cell is unchanged |
| `ShareRows.ShareRowStep` | server/repo-perm.c:18-35 | one callback: the scan stops iff the row is "rw", and an "rw" row sets "rw"; the permission is kept or becomes the row's text; it stays none only on a row other than "r"/"rw"; an "r" never turns back into none |
| `ShareRows.ShareRowStepExtends` | server/repo-perm.c:18-35 | one callback on the merge of the rows seen so far (none "rw") gives the merge of one more row, and asks to stop exactly on "rw" |
| `ShareRows.GroupMerge` | server/repo-perm.c:18-35 | what the row scan computes: a present result is "r" or "rw" and is the text of some row; none means no row reads "r" or "rw" |
| `ShareRows.FoldShareRows` | server/repo-perm.c:18-35 | the row scan returns "rw" if any row is "rw", else "r" if any row is "r", else none; it stops right after the first "rw" and otherwise sees every row |
| `ShareRows.GroupMergeMeaning` | server/repo-perm.c:24-31 | the merged value is "rw" iff some row is "rw"; "r" iff no row is "rw" and some row is "r"; none iff neither |
| `ShareRows.GroupMergeIgnoresOtherText` | server/repo-perm.c:24-34 | a row with text other than "r"/"rw" changes nothing, wherever it stands |
| `ShareRows.GroupMergeOrderFree` | server/repo-perm.c:18-35 | the merged value does not depend on the order of the rows |
| `RepoPerm.Trimmed` | server/repo-perm.c:99-115 | the conditional `rtrim` of a present share (lines 101, 107, 114): present iff the share is, a prefix of it without trailing white space, with only white space removed |
| `RepoPerm.GroupPermissionByUser` | server/repo-perm.c:45-88 | no groups gives none; otherwise "r", "rw" or none by the row fold; "rw" iff some delivered row says "rw" |
| `RepoPerm.RepoSharePermission` | server/repo-perm.c:90-119 | the result has no trailing white space; it is none iff there is no personal share, no group result, and either cloud mode or no public share |
| `RepoPerm.PersonalShareDecides` | server/repo-perm.c:97-103 | an existing personal share is returned trimmed; two deployments with the same personal share agree, whatever their group, public and cloud settings |
| `RepoPerm.PersonalReadBeatsGroupWrite` | server/repo-perm.c:97-109 | a personal "r" wins over a group "rw" |
| `RepoPerm.GroupShareBeforePublic` | server/repo-perm.c:105-109 | with no personal share, the group result is returned, whatever the public share is |
| `RepoPerm.CloudModeIgnoresPublic` | server/repo-perm.c:111-118 | in cloud mode the public share is never consulted; with no personal or group share the result is none |
| `RepoPerm.PublicShareOutsideCloud` | server/repo-perm.c:111-116 | outside cloud mode, with no personal or group share, the result is the trimmed public share |
| `DirPerm.LastSlash` | server/repo-perm.c:134 | `g_strrstr(tmp, "/")`: a slash position with no slash after it |
| `DirPerm.ParentCuts` | server/repo-perm.c:134-135 | cutting at the last slash keeps exactly the shorter keys the lookup tries |
| `DirPerm.LongestPrefixPerm` | server/repo-perm.c:121-141 | the result is none iff no tried key (the path, or a prefix followed by `/`) is in the map; otherwise it is the value of the longest tried key present, never a mix of two keys |
| `DirPerm.LongerKeyWins` | server/repo-perm.c:130-136 | if a tried key is present, a value is found, and it belongs to that key or to a longer one |
| `DirPerm.GetDirPerm` | server/repo-perm.c:121-141 | the truncation loop returns exactly the longest-prefix value |
| `DirPerm.LongestPrefixExamples` | server/repo-perm.c:121-141 | `/a/b` shadows `/a` for `/a/b/c`; `/a` applies to `/a/x`; a deeper key does not apply to its ancestor |
| `RepoPerm.PermOnParentRepo` | server/repo-perm.c:143-194 | a result is the longest-prefix value at the mount path in either the user path grants or the group path grants of the user's (non-empty) group list |
| `RepoPerm.UserPathGrantFirst` | server/repo-perm.c:162-168 | a user path grant at the mount path wins over every group path grant |
| `RepoPerm.ParentSearchStops` | server/repo-perm.c:158-160 | no user path-grant map gives none; a user map with no match and no groups also gives none (lines 171-175) |
| `RepoPerm.GroupPathGrantsNext` | server/repo-perm.c:177-193 | with no user match and some groups, the result is the longest-prefix value of the group path grants |
| `RepoPerm.VirtualRepoPermission` | server/repo-perm.c:196-228 | the origin owner gets "rw"; otherwise a path grant is returned if there is one; otherwise the result is whole-origin share resolution on the origin; the result is none iff the user is not the owner and both path grants and whole-origin shares give nothing |
| `RepoPerm.RepoPermission` | server/repo-perm.c:235-266 | a non-virtual repo without an owner gives none; its owner gets "rw"; the owner of a virtual repo's origin gets "rw" |
| `RepoPerm.VirtualRepoDispatch` | server/repo-perm.c:246-252 | a virtual repo is decided by the virtual checker alone, on its origin and mount path |
| `RepoPerm.OriginOwnerHasReadWrite` | server/repo-perm.c:206-212 | the owner of the origin has "rw" on every virtual repo of it, at any mount path |
| `RepoPerm.NonVirtualDispatch` | server/repo-perm.c:254-260 | a non-virtual repo: no owner gives none even if shares exist; the owner gets "rw"; anyone else gets share resolution |
| `RepoPerm.NonVirtualResultOrigin` | server/repo-perm.c:254-260 | a non-virtual result is the owner's "rw" or comes from the trimmed personal share, the group result, or (outside cloud mode) the trimmed public share |
| `DirentOrder.Fold` | server/repo-perm.c:282 | the ASCII `tolower` inside `strcasecmp`: an upper-case letter maps to its lower-case letter, any other character to itself, and no result is upper-case |
| `DirentOrder.CompareNoCase` | server/repo-perm.c:282 | the sign of `strcasecmp`: -1, 0 or 1, equal only for names of equal length; with `CompareNoCaseZeroIff` and `CompareNoCaseFirstDifference` it is the lexicographic order of the folded names, a proper prefix first |
| `DirentOrder.CompareNoCaseAntisymmetric` | server/repo-perm.c:282 | swapping the names flips the sign |
| `DirentOrder.CompareNoCaseTransitive` | server/repo-perm.c:282 | "not after" is transitive |
| `DirentOrder.CompareNoCaseZeroIff` | server/repo-perm.c:282 | the comparison is 0 iff the names have equal length and agree at every position after folding |
| `DirentOrder.CompareNoCaseFirstDifference` | server/repo-perm.c:282 | if the folded names agree before position `k` and `a` ends at `k` while `b` goes on, or `a`'s folded character at `k` is smaller, the result is -1 |
| `DirentOrder.CompareNoCaseIgnoresCase` | server/repo-perm.c:282 | names that differ only in ASCII letter case compare equal |
| `DirentOrder.CompareDirents` | server/repo-perm.c:271-283 | `comp_dirent_func`: the sign is -1, 0 or 1; entries of different kinds never compare equal and the directory comes first; equal entries have the same kind and names of equal length |
| `DirentOrder.CompareDirentsMeaning` | server/repo-perm.c:271-283 | a directory is before a file, a file is after a directory, and same kinds compare by name without regard to case |
| `DirentOrder.CompareDirentsAntisymmetric` | server/repo-perm.c:271-283 | the comparator flips sign when the arguments are swapped |
| `DirentOrder.LeTotal` | server/repo-perm.c:271-283 | any two entries are ordered one way or the other |
| `DirentOrder.LeTransitive` | server/repo-perm.c:271-283 | the comparator's "not after" is transitive, so sorting with it is well defined |
| `DirentOrder.Insert` | server/repo-perm.c:326 | insertion adds exactly one copy of the entry |
| `DirentOrder.InsertSorted` | server/repo-perm.c:326 | insertion into a sorted list keeps it sorted |
| `DirentOrder.LowerBoundInsert` | server/repo-perm.c:326 | a lower bound of the entry and the list bounds the result of the insertion |
| `DirentOrder.SortEntries` | server/repo-perm.c:326 | the sorted entries are in comparator order and are a permutation of the snapshot's entries |
| `DirentOrder.SortedListingOrder` | server/repo-perm.c:269-283 | after sorting no file precedes a directory, and same-kind entries are in case-insensitive name order |
| `DirListing.Reverse` | server/repo-perm.c:392 | `g_list_reverse`: the same length, and for an input of length `n`, element `i` is the input's element `n-1-i` |
| `DirListing.ReversePrepend` | server/repo-perm.c:383 | reversing a prepended list puts the new element last |
| `DirListing.ReverseAppend` | server/repo-perm.c:383 | prepending to a reversed list is reversing the list with the element appended |
| `DirListing.ReverseReverse` | server/repo-perm.c:391-392 | reversing the prepend-built list gives the forward order back |
| `DirListing.ChildPath` | server/repo-perm.c:374-378 | the child path starts with the directory path and ends with the name, with a `/` between them unless the directory is `/` |
| `DirListing.Decorate` | server/repo-perm.c:362-382 | the built entry keeps every snapshot field and carries the permission; it has a shared flag iff a shared set was fetched and the entry is a directory, and the flag is membership of its child path |
| `DirListing.Emitted` | server/repo-perm.c:357-383 | the entries the walk emits over a run of positions, at most one per position |
| `DirListing.EmittedStep` | server/repo-perm.c:357-383 | one more position appends that position's entry if its id is valid, and nothing otherwise |
| `DirListing.EmittedMembers` | server/repo-perm.c:359-383 | an entry is emitted iff it is the decoration of a walked entry with a valid id |
| `DirListing.EmittedLength` | server/repo-perm.c:347-384 | at most one entry is emitted per position |
| `DirListing.EmittedOrdered` | server/repo-perm.c:383-392 | emitting from a sorted run keeps the sorted order |
| `DirListing.ClampOffset` | server/repo-perm.c:327-329 | a negative offset is read as 0, any other offset is kept |
| `DirListing.InWindow` | server/repo-perm.c:348-355 | a position in the window is at or after the offset and, for a positive limit, fewer than `limit` positions after the clamped offset |
| `DirListing.Page` | server/repo-perm.c:347-392 | the page of the sorted entries that the walk returns, no longer than the entry list |
| `DirListing.PageMembers` | server/repo-perm.c:328-360 | the page holds exactly the valid-id entries at sorted positions `k` with `max(offset,0) <= k` and, for `limit > 0`, `k < max(offset,0) + limit` |
| `DirListing.PageAnnotations` | server/repo-perm.c:362-382 | each page entry carries the one permission and a valid id, comes from the snapshot, and has a shared flag iff it is a directory and a shared set was fetched; the flag equals membership of `dir_path + name` (for `/`) or `dir_path + "/" + name` |
| `DirListing.PageShape` | server/repo-perm.c:347-392 | a page of a sorted list is in listing order and has at most `limit` entries when `limit > 0` |
| `DirListing.InvalidEntryTakesSlot` | server/repo-perm.c:347-360 | an invalid entry uses up its position: with limit 1 and an invalid entry at the offset the page is empty, even if valid entries follow |
| `DirListing.SharedSubDirsFor` | server/repo-perm.c:337-345 | a shared set is present only for the owner of a repo that is not virtual, and for that caller it is the set fetched by `store_id` and directory path |
| `DirListing.Listing` | server/repo-perm.c:285-395 | the reference listing succeeds iff a permission resolves, the repo exists and the directory exists |
| `DirListing.ListingErrors` | server/repo-perm.c:303-324 | the listing fails with "Access denied" iff no permission resolves; with "Bad repo id" iff a permission resolves but the repo is unknown; with "Bad dir id" iff the repo exists but the directory is unknown |
| `DirListing.ListingSuccess` | server/repo-perm.c:326-392 | once a permission resolves and the repo and directory exist, the listing succeeds; it is in listing order, has at most `limit` entries, gives every entry the resolved permission, and sets the shared flag only on directories of a non-virtual repo listed by its owner |
| `DirListing.NewDecoratedEntry` | server/repo-perm.c:362-382 | the built entry copies the snapshot fields and the permission, and has the shared flag exactly as the decoration prescribes |
| `DirListing.WalkEntries` | server/repo-perm.c:328-392 | the offset clamp, the counted walk with `continue`/`break`, the prepend and the final reverse produce exactly the page of the sorted entries |
| `DirListing.ListDirWithPerm` | server/repo-perm.c:285-395 | the whole listing returns exactly `Listing`: the three error cases in order, else the annotated page of the sorted entries |
| `Scenarios.SortExample` | server/repo-perm.c:271-283 | `dirB, dirA, file_b, file_A` sort to `dirA, dirB, file_A, file_b` |
| `Scenarios.PersonalReadScenario` | server/repo-perm.c:254-260 | a personal "r" share on another user's repo resolves to "r", and every listed entry carries "r" with no shared flag |
| `Scenarios.VirtualRepoScenario` | server/repo-perm.c:196-228 | the origin owner gets "rw" on a virtual repo; a path grant on an ancestor of the mount path gives "rw" |
| `Scenarios.PublicShareScenario` | server/repo-perm.c:111-118 | a public "r" share gives none in cloud mode and "r" otherwise |
| `Scenarios.InvalidIdScenario` | server/repo-perm.c:347-360 | offset 1, limit 1, invalid second entry: the page is empty |

## Left out

- The SQL text and the database call in `check_group_permission_by_user` are
  not modelled. The model takes the row sequence the database delivers. After
  a database error, that sequence is the rows delivered before the error.
- A row whose permission column is NULL is treated like any other text. It
  changes nothing.
- The implementations of the collaborator services are not part of this model
  (share manager, group manager, repo manager, fs manager,
  `is_object_id_valid`). Each is an abstract function in `Env`. In particular,
  how the shared-dirs-to-group service merges the rows of several groups is
  not visible.
- Memory management is not modelled: reference counts, `g_free`, hash table
  and dirent frees. It has no effect on results.
- Logging and GError domains and codes are not modelled. A listing error is a
  three-way tag. `seaf_repo_manager_check_permission` never sets its error, so
  a failed resolution always gives "Access denied".
- `WalkEntries`: `offset`, `limit` and `offset + limit` are mathematical
  integers. C `int` overflow of `offset + limit` is not modelled.
- `DirPerm.GetDirPerm`: paths must be empty or start with `/` (`ValidPath`).
  A path without a slash would crash the C code on a NULL pointer.
- Entry modes other than directory and regular file are not modelled. Mixing
  them makes `comp_dirent_func` inconsistent, and snapshots hold only those
  two kinds. The full `mode` that the listing copies into each entry is
  reduced to its kind (`DecoratedEntry.kind`).
- `DirentOrder.CompareNoCase` models only the sign of `strcasecmp`, not the
  byte difference it returns. Characters are compared as code points, not as
  unsigned bytes of an encoding.
- `Trim.IsSpace` is C-locale `isspace` on characters. The undefined behaviour
  of `isspace` on negative `char` values is not modelled.
- `DirentOrder.SortEntries` is a stable insertion sort that stands in for
  GLib's stable merge sort, and it produces a new sequence. The C code sorts
  `dir->entries` in place, but that list is freed right afterwards. Stability
  is not stated as a lemma. Only sortedness and permutation are proved.
- The path-grant and shared-subdir hash tables are modelled as maps and sets
  whose values are never NULL.
- An `is_shared` property that is never set is `None`. GObject default values
  are not modelled.
