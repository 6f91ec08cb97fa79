/** Worked cases of the resolver and the listing on small deployments. */
module Scenarios {
  import opened Wrappers
  import opened DirentOrder
  import opened Collaborators
  import opened Trim
  import opened DirPerm
  import opened RepoPerm
  import opened DirListing

  /** A deployment in which no service knows anything. */
  function Blank(cloud: bool): Env
  {
    Env(cloud,
        _ => None, _ => None, (_, _) => None, _ => [], (_, _) => [], _ => None,
        (_, _) => None, (_, _) => None, _ => None, (_, _, _) => None, (_, _) => None,
        _ => true)
  }

  function Entry(name: string, kind: EntryKind): Dirent
  {
    Dirent("id-" + name, name, kind, 1, 0, 0, "")
  }

  lemma FileNamesCompare()
    ensures CompareNoCase("file_A", "file_b") == -1
  {
    assert "file_A"[1..] == "ile_A" && "file_b"[1..] == "ile_b";
    assert "ile_A"[1..] == "le_A" && "ile_b"[1..] == "le_b";
    assert "le_A"[1..] == "e_A" && "le_b"[1..] == "e_b";
    assert "e_A"[1..] == "_A" && "e_b"[1..] == "_b";
    assert "_A"[1..] == "A" && "_b"[1..] == "b";
    assert CompareNoCase("A", "b") == -1;
  }

  lemma DirNamesCompare()
    ensures CompareNoCase("dirA", "dirB") == -1
  {
    assert "dirA"[1..] == "irA" && "dirB"[1..] == "irB";
    assert "irA"[1..] == "rA" && "irB"[1..] == "rB";
    assert "rA"[1..] == "A" && "rB"[1..] == "B";
    assert CompareNoCase("A", "B") == -1;
  }

  lemma SortTwo(f1: Dirent, f2: Dirent)
    requires !Le(f2, f1)
    ensures SortEntries([f2, f1]) == [f1, f2]
  {
    assert [f2, f1][1..] == [f1];
    assert [f1][1..] == [];
    assert SortEntries([f1]) == Insert(f1, []);
    assert Insert(f2, [f1]) == [f1] + Insert(f2, []);
  }

  lemma SortThree(d1: Dirent, f1: Dirent, f2: Dirent)
    requires !Le(f2, f1) && Le(d1, f1)
    ensures SortEntries([d1, f2, f1]) == [d1, f1, f2]
  {
    SortTwo(f1, f2);
    assert [d1, f2, f1][1..] == [f2, f1];
  }

  // `InsertBefore` and `InsertPast` unfold one step of `Insert` each; they
  // only serve the worked sort example below.
  lemma InsertBefore(x: Dirent, t: seq<Dirent>)
    requires t != [] && Le(x, t[0])
    ensures Insert(x, t) == [x] + t
  {
  }

  lemma InsertPast(x: Dirent, t: seq<Dirent>)
    requires t != [] && !Le(x, t[0])
    ensures Insert(x, t) == [t[0]] + Insert(x, t[1..])
  {
  }

  lemma InsertSecond(d2: Dirent, d1: Dirent, f1: Dirent, f2: Dirent)
    requires !Le(d2, d1) && Le(d2, f1)
    ensures Insert(d2, [d1, f1, f2]) == [d1, d2, f1, f2]
  {
    InsertPast(d2, [d1, f1, f2]);
    assert [d1, f1, f2][1..] == [f1, f2];
    InsertBefore(d2, [f1, f2]);
  }

  /** Insertion of four entries whose pairwise order is as given. */
  lemma SortFour(d1: Dirent, d2: Dirent, f1: Dirent, f2: Dirent)
    requires !Le(d2, d1) && Le(d1, f1) && Le(d2, f1) && !Le(f2, f1)
    ensures SortEntries([d2, d1, f2, f1]) == [d1, d2, f1, f2]
  {
    SortThree(d1, f1, f2);
    InsertSecond(d2, d1, f1, f2);
    assert [d2, d1, f2, f1][1..] == [d1, f2, f1];
  }

  /** Directories first, then names without regard to case. */
  lemma SortExample()
    ensures SortEntries([Entry("dirB", Dir), Entry("dirA", Dir), Entry("file_b", File), Entry("file_A", File)])
         == [Entry("dirA", Dir), Entry("dirB", Dir), Entry("file_A", File), Entry("file_b", File)]
  {
    FileNamesCompare();
    DirNamesCompare();
    CompareNoCaseAntisymmetric("file_A", "file_b");
    CompareNoCaseAntisymmetric("dirA", "dirB");
    SortFour(Entry("dirA", Dir), Entry("dirB", Dir), Entry("file_A", File), Entry("file_b", File));
  }

  /** Repo R1 owned by alice; bob holds a personal "r" share: bob resolves to
      "r" and every entry of bob's listing of R1 carries "r". */
  lemma PersonalReadScenario(entries: seq<Dirent>)
    ensures var env := Blank(false).(
              repoOwner := r => if r == "R1" then Some("alice") else None,
              personalShare := (r, u) => if r == "R1" && u == "bob" then Some("r") else None,
              repo := r => if r == "R1" then Some(RepoRecord("R1", 1, false)) else None,
              seafDir := (st, v, d) => if d == "root" then Some(entries) else None);
            RepoPermission(env, "R1", "bob") == Some("r") &&
            Listing(env, "R1", "/", "root", "bob", 0, 10).Success? &&
            forall d :: d in Listing(env, "R1", "/", "root", "bob", 0, 10).value ==>
              d.permission == "r" && d.isShared.None?
  {
    var env := Blank(false).(
      repoOwner := r => if r == "R1" then Some("alice") else None,
      personalShare := (r, u) => if r == "R1" && u == "bob" then Some("r") else None,
      repo := r => if r == "R1" then Some(RepoRecord("R1", 1, false)) else None,
      seafDir := (st, v, d) => if d == "root" then Some(entries) else None);
    assert !EndsWithSpace("r");
    assert RepoPermission(env, "R1", "bob") == Some("r");
    ListingSuccess(env, "R1", "/", "root", "bob", 0, 10);
    var ann := Annotation("r", None, "/");
    PageAnnotations(SortEntries(entries), 0, 10, env.objectIdValid, ann);
  }

  /** A virtual repo mounted at /projects/sub/docs of R1 owned by alice: alice
      has "rw"; carol, with a path grant "rw" on /projects/sub only, has "rw"
      through the longest-prefix match. */
  lemma VirtualRepoScenario()
    ensures var env := Blank(false).(
              repoOwner := r => if r == "R1" then Some("alice") else None,
              virtualInfo := r => if r == "V1" then Some(VirtInfo("R1", "/projects/sub/docs")) else None,
              sharedDirsToUser := (r, u) =>
                if r == "R1" && u == "carol" then Some(map["/projects/sub" := "rw"]) else None);
            RepoPermission(env, "V1", "alice") == Some("rw") &&
            RepoPermission(env, "V1", "carol") == Some("rw")
  {
    var m := map["/projects/sub" := "rw"];
    var p := "/projects/sub/docs";
    assert p[13] == '/' && p[14] == 'd' && p[15] == 'o' && p[16] == 'c' && p[17] == 's';
    assert LastSlash(p) == 13;
    assert "/projects/sub/docs"[..13] == "/projects/sub";
    assert LongestPrefixPerm(m, "/projects/sub/docs") == Some("rw");
  }

  /** R2 has a public share "r" and dave has nothing else: none in cloud
      mode, "r" otherwise. */
  lemma PublicShareScenario()
    ensures var env := Blank(true).(
              repoOwner := r => if r == "R2" then Some("erin") else None,
              innerPubPerm := r => if r == "R2" then Some("r") else None);
            RepoPermission(env, "R2", "dave").None? &&
            RepoPermission(env.(cloudMode := false), "R2", "dave") == Some("r")
  {
    assert !EndsWithSpace("r");
  }

  /** Offset 1 and limit 1 over three entries whose second has an invalid
      id: the page is empty although a valid third entry exists. */
  lemma InvalidIdScenario()
    ensures var e := [Entry("a", File), Dirent("bad", "b", File, 1, 0, 0, ""), Entry("c", File)];
            Page(e, 1, 1, id => id != "bad", Annotation("rw", None, "/")) == []
  {
    var e := [Entry("a", File), Dirent("bad", "b", File, 1, 0, 0, ""), Entry("c", File)];
    InvalidEntryTakesSlot(e, 1, id => id != "bad", Annotation("rw", None, "/"));
  }
}
