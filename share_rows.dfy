/** The group-share row fold: `check_repo_share_perm_cb` run by the database
    layer over the `permission` column of every matching RepoGroup row. */
module ShareRows {
  import opened Wrappers

  /** The merged group permission: "rw" if any row says "rw", else "r" if any
      row says "r", else nothing. Any other text is ignored. */
  function GroupMerge(rows: seq<string>): (r: Option<string>)
    ensures r.Some? ==> r.value in rows && r.value in {"r", "rw"}
    ensures r.None? ==> "r" !in rows && "rw" !in rows
  {
    if "rw" in rows then Some("rw")
    else if "r" in rows then Some("r")
    else None
  }

  /** One callback: the accumulated permission afterwards and whether the row
      scan goes on (`FALSE` stops it). */
  function ShareRowStep(acc: Option<string>, row: string): (r: (Option<string>, bool))
    ensures !r.1 <==> row == "rw"
    ensures row == "rw" ==> r.0 == Some("rw")
    ensures r.0 == acc || r.0 == Some(row)
    ensures r.0.None? <==> acc.None? && row != "r" && row != "rw"
    ensures acc == Some("r") ==> r.0.Some? && r.0.value in {"r", "rw"}
  {
    if row == "rw" then (Some("rw"), false)
    else if row == "r" && acc.None? then (Some("r"), true)
    else (acc, true)
  }

  /** A callback on the merge of the rows seen so far (none of them "rw", or
      the scan would have stopped) gives the merge of one more row. */
  lemma ShareRowStepExtends(seen: seq<string>, row: string)
    requires "rw" !in seen
    ensures ShareRowStep(GroupMerge(seen), row) == (GroupMerge(seen + [row]), row != "rw")
  {
    assert row in seen + [row];
    assert forall x :: x in seen + [row] <==> x in seen || x == row;
  }

  /** `seaf_db_statement_foreach_row(..., check_repo_share_perm_cb, &permission)`:
      `scanned` is the number of rows the callback saw; the scan ends after
      the first "rw". */
  method FoldShareRows(rows: seq<string>) returns (perm: Option<string>, scanned: nat)
    ensures perm == GroupMerge(rows)
    ensures scanned <= |rows|
    ensures "rw" in rows ==> 0 < scanned && rows[scanned - 1] == "rw" && "rw" !in rows[..scanned - 1]
    ensures "rw" !in rows ==> scanned == |rows|
  {
    perm, scanned := None, 0;
    var more := true;
    while more && scanned < |rows|
      invariant scanned <= |rows|
      invariant more ==> "rw" !in rows[..scanned] && perm == GroupMerge(rows[..scanned])
      invariant !more ==> 0 < scanned && rows[scanned - 1] == "rw" &&
                          "rw" !in rows[..scanned - 1] && perm == Some("rw")
    {
      ShareRowStepExtends(rows[..scanned], rows[scanned]);
      assert rows[..scanned + 1] == rows[..scanned] + [rows[scanned]];
      perm, more := ShareRowStep(perm, rows[scanned]).0, ShareRowStep(perm, rows[scanned]).1;
      scanned := scanned + 1;
    }
    if more {
      assert rows[..scanned] == rows;
    } else {
      assert rows[scanned - 1] in rows;
    }
  }

  /** The merge only ever yields "rw", "r" or nothing; "rw" exactly when some
      row says "rw"; nothing exactly when no row says "r" or "rw". */
  lemma GroupMergeMeaning(rows: seq<string>)
    ensures GroupMerge(rows) == Some("rw") <==> "rw" in rows
    ensures GroupMerge(rows) == Some("r") <==> "rw" !in rows && "r" in rows
    ensures GroupMerge(rows).None? <==> "rw" !in rows && "r" !in rows
  {
  }

  /** A row with any other text, wherever it stands, changes nothing. */
  lemma GroupMergeIgnoresOtherText(before: seq<string>, row: string, after: seq<string>)
    requires row != "r" && row != "rw"
    ensures GroupMerge(before + [row] + after) == GroupMerge(before + after)
  {
    var s, t := before + [row] + after, before + after;
    assert forall x :: x in s <==> x in before || x == row || x in after;
    assert forall x :: x in t <==> x in before || x in after;
  }

  /** The merge does not depend on the order of the rows. */
  lemma GroupMergeOrderFree(rows: seq<string>, other: seq<string>)
    requires multiset(rows) == multiset(other)
    ensures GroupMerge(rows) == GroupMerge(other)
  {
    assert "rw" in rows <==> "rw" in multiset(rows);
    assert "rw" in other <==> "rw" in multiset(other);
    assert "r" in rows <==> "r" in multiset(rows);
    assert "r" in other <==> "r" in multiset(other);
  }
}
