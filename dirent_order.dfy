/** Directory entries and the order in which a listing presents them:
    directories before regular files, then names compared case-insensitively
    (the comparator `comp_dirent_func` and the sort applied with it). */
module DirentOrder {

  /** The two kinds of entry a directory snapshot holds (S_ISDIR / S_ISREG). */
  datatype EntryKind = Dir | File

  /** One entry of a directory snapshot. */
  datatype Dirent = Dirent(
    id: string,
    name: string,
    kind: EntryKind,
    version: int,
    mtime: int,
    size: int,
    modifier: string)

  /** ASCII `tolower`, as `strcasecmp` applies it to each byte. */
  function Fold(c: char): (r: char)
    ensures 'A' <= c <= 'Z' ==> 'a' <= r <= 'z' && r as int - c as int == 32
    ensures !('A' <= c <= 'Z') ==> r == c
    ensures !('A' <= r <= 'Z')
  {
    if 'A' <= c <= 'Z' then (c as int + 32) as char else c
  }

  /** The sign of `strcasecmp(a, b)`: a lexicographic comparison of the
      case-folded characters, where a proper prefix comes first. */
  function CompareNoCase(a: string, b: string): (r: int)
    ensures -1 <= r <= 1
    ensures r == 0 ==> |a| == |b|
  {
    if a == [] && b == [] then 0
    else if a == [] then -1
    else if b == [] then 1
    else if Fold(a[0]) < Fold(b[0]) then -1
    else if Fold(b[0]) < Fold(a[0]) then 1
    else CompareNoCase(a[1..], b[1..])
  }

  /** Swapping the arguments flips the sign. */
  lemma {:induction false} CompareNoCaseAntisymmetric(a: string, b: string)
    ensures CompareNoCase(b, a) == -CompareNoCase(a, b)
    decreases |a|
  {
    if a != [] && b != [] && Fold(a[0]) == Fold(b[0]) {
      CompareNoCaseAntisymmetric(a[1..], b[1..]);
    }
  }

  /** "Not after" is transitive. */
  lemma {:induction false} CompareNoCaseTransitive(a: string, b: string, c: string)
    requires CompareNoCase(a, b) <= 0 && CompareNoCase(b, c) <= 0
    ensures CompareNoCase(a, c) <= 0
    decreases |a|
  {
    if a != [] && b != [] && c != [] && Fold(a[0]) == Fold(b[0]) == Fold(c[0]) {
      CompareNoCaseTransitive(a[1..], b[1..], c[1..]);
    }
  }

  /** `strcasecmp` reports equality exactly for names of the same length whose
      characters agree after folding. */
  lemma {:induction false} CompareNoCaseZeroIff(a: string, b: string)
    ensures CompareNoCase(a, b) == 0 <==>
              |a| == |b| && forall i :: 0 <= i < |a| ==> Fold(a[i]) == Fold(b[i])
    decreases |a|
  {
    if a != [] && b != [] {
      if Fold(a[0]) == Fold(b[0]) {
        CompareNoCaseZeroIff(a[1..], b[1..]);
        if |a| == |b| && forall i :: 0 <= i < |a| - 1 ==> Fold(a[1..][i]) == Fold(b[1..][i]) {
          forall i | 0 <= i < |a|
            ensures Fold(a[i]) == Fold(b[i])
          {
            if i > 0 {
              assert a[i] == a[1..][i - 1] && b[i] == b[1..][i - 1];
            }
          }
        }
      }
    }
  }

  /** The first position where the folded names differ decides: if they agree
      up to `k` and `a` ends there while `b` goes on, or `a`'s folded character
      at `k` is smaller, then `a` comes first. */
  lemma {:induction false} CompareNoCaseFirstDifference(a: string, b: string, k: nat)
    requires k <= |a| && k <= |b|
    requires forall i :: 0 <= i < k ==> Fold(a[i]) == Fold(b[i])
    requires (k == |a| && k < |b|) || (k < |a| && k < |b| && Fold(a[k]) < Fold(b[k]))
    ensures CompareNoCase(a, b) == -1
    decreases k
  {
    if k > 0 {
      assert Fold(a[0]) == Fold(b[0]);
      forall i | 0 <= i < k - 1
        ensures Fold(a[1..][i]) == Fold(b[1..][i])
      {
        assert a[1..][i] == a[i + 1] && b[1..][i] == b[i + 1];
      }
      CompareNoCaseFirstDifference(a[1..], b[1..], k - 1);
    }
  }

  /** Names that differ only in ASCII letter case compare equal. */
  lemma {:induction false} CompareNoCaseIgnoresCase(a: string, b: string)
    requires |a| == |b|
    requires forall i :: 0 <= i < |a| ==> Fold(a[i]) == Fold(b[i])
    ensures CompareNoCase(a, b) == 0
  {
    if a != [] {
      CompareNoCaseIgnoresCase(a[1..], b[1..]);
    }
  }

  /** The sign of `comp_dirent_func(a, b)`. */
  function CompareDirents(a: Dirent, b: Dirent): (r: int)
    ensures -1 <= r <= 1
    ensures a.kind != b.kind ==> (r < 0 <==> a.kind == Dir) && r != 0
    ensures r == 0 ==> a.kind == b.kind && |a.name| == |b.name|
  {
    if a.kind == Dir && b.kind == File then -1
    else if a.kind == File && b.kind == Dir then 1
    else
      assert a.kind == b.kind by { assert a.kind.Dir? || a.kind.File?; }
      CompareNoCase(a.name, b.name)
  }

  /** `a` may come before `b` in the listing order. */
  predicate Le(a: Dirent, b: Dirent)
  {
    CompareDirents(a, b) <= 0
  }

  /** The comparator is a total preorder: antisymmetric in sign ... */
  lemma CompareDirentsAntisymmetric(a: Dirent, b: Dirent)
    ensures CompareDirents(b, a) == -CompareDirents(a, b)
  {
    CompareNoCaseAntisymmetric(a.name, b.name);
  }

  /** ... total ... */
  lemma LeTotal(a: Dirent, b: Dirent)
    ensures Le(a, b) || Le(b, a)
  {
    CompareDirentsAntisymmetric(a, b);
  }

  /** ... and transitive. */
  lemma LeTransitive(a: Dirent, b: Dirent, c: Dirent)
    requires Le(a, b) && Le(b, c)
    ensures Le(a, c)
  {
    if a.kind == b.kind == c.kind {
      CompareNoCaseTransitive(a.name, b.name, c.name);
    }
  }

  /** Every directory sorts strictly before every regular file, and within one
      kind the order is the case-insensitive name order. */
  lemma CompareDirentsMeaning(a: Dirent, b: Dirent)
    ensures a.kind == Dir && b.kind == File ==> CompareDirents(a, b) < 0
    ensures a.kind == File && b.kind == Dir ==> CompareDirents(a, b) > 0
    ensures a.kind == b.kind ==> CompareDirents(a, b) == CompareNoCase(a.name, b.name)
  {
  }

  ghost predicate Sorted(s: seq<Dirent>)
  {
    forall i, j :: 0 <= i < j < |s| ==> Le(s[i], s[j])
  }

  /** Puts `x` before the first element it is not after; ties keep `x` first. */
  function Insert(x: Dirent, t: seq<Dirent>): (r: seq<Dirent>)
    ensures multiset(r) == multiset(t) + multiset{x}
  {
    if t == [] then [x]
    else if Le(x, t[0]) then [x] + t
    else
      assert t == [t[0]] + t[1..];
      [t[0]] + Insert(x, t[1..])
  }

  /** An element that is not after `x` nor after any element of `t` is not
      after any element of `Insert(x, t)`. */
  lemma LowerBoundInsert(y: Dirent, x: Dirent, t: seq<Dirent>)
    requires Le(y, x)
    requires forall k :: 0 <= k < |t| ==> Le(y, t[k])
    ensures forall j :: 0 <= j < |Insert(x, t)| ==> Le(y, Insert(x, t)[j])
  {
    var r := Insert(x, t);
    forall j | 0 <= j < |r| ensures Le(y, r[j]) {
      assert r[j] in multiset(r);
      if r[j] != x {
        assert r[j] in multiset(t);
        var k :| 0 <= k < |t| && t[k] == r[j];
      }
    }
  }

  lemma {:induction false} InsertSorted(x: Dirent, t: seq<Dirent>)
    requires Sorted(t)
    ensures Sorted(Insert(x, t))
  {
    if t == [] {
    } else if Le(x, t[0]) {
      var r := [x] + t;
      forall i, j | 0 <= i < j < |r| ensures Le(r[i], r[j]) {
        if i == 0 && j > 1 {
          LeTransitive(x, t[0], t[j - 1]);
        }
      }
    } else {
      LeTotal(x, t[0]);
      var tail := t[1..];
      InsertSorted(x, tail);
      LowerBoundInsert(t[0], x, tail);
      var rest := Insert(x, tail);
      var r := [t[0]] + rest;
      assert r == Insert(x, t);
      forall i, j | 0 <= i < j < |r| ensures Le(r[i], r[j]) {
        if i > 0 {
          assert r[i] == rest[i - 1] && r[j] == rest[j - 1];
        } else {
          assert r[j] == rest[j - 1];
        }
      }
    }
  }

  /** The order `g_list_sort(entries, comp_dirent_func)` produces: sorted by the
      comparator and a permutation of its input. */
  function SortEntries(s: seq<Dirent>): (r: seq<Dirent>)
    ensures Sorted(r)
    ensures multiset(r) == multiset(s)
    ensures |r| == |s|
  {
    if s == [] then []
    else
      var rest := SortEntries(s[1..]);
      InsertSorted(s[0], rest);
      assert s == [s[0]] + s[1..];
      Insert(s[0], rest)
  }

  /** In a sorted listing no regular file precedes a directory, and entries of
      one kind are in case-insensitive name order. */
  lemma SortedListingOrder(s: seq<Dirent>, i: int, j: int)
    requires 0 <= i < j < |SortEntries(s)|
    ensures !(SortEntries(s)[i].kind == File && SortEntries(s)[j].kind == Dir)
    ensures SortEntries(s)[i].kind == SortEntries(s)[j].kind ==>
              CompareNoCase(SortEntries(s)[i].name, SortEntries(s)[j].name) <= 0
  {
    var r := SortEntries(s);
    assert Le(r[i], r[j]);
  }
}
