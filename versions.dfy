/**
  Semester data files. The data repository lists files named
  `all_classes_YYYS_YYYYMMDD.csv` (a three-digit academic year, a semester
  code 1, 2 or 3, and the date of the snapshot). The pages keep, for each
  academic year and semester, the file with the greatest name, open the
  greatest of those, and show a file name as "year, semester, date".
*/
module Versions {
  import opened Outcomes
  import opened JsStrings
  import opened Numerals
  import opened Seqs

  /** A directory entry of the data repository. */
  datatype FileInfo = FileInfo(name: string, downloadUrl: string)

  /** The files of one `academicYear-semester` key, in listing order. */
  datatype Group = Group(key: string, files: seq<FileInfo>)

  const Prefix: string := "all_classes_"

  predicate IsSemesterCode(c: char) {
    c == '1' || c == '2' || c == '3'
  }

  /** `all_classes_(\d{3})([123])_` matches at index `i` of `name`. */
  predicate KeyPatternAt(name: string, i: nat) {
    i + 17 <= |name| && name[i..i + 12] == Prefix &&
    IsDigit(name[i + 12]) && IsDigit(name[i + 13]) && IsDigit(name[i + 14]) &&
    IsSemesterCode(name[i + 15]) && name[i + 16] == '_'
  }

  /** The two captures joined as `${match[1]}-${match[2]}`. */
  function KeyAt(name: string, i: nat): (key: string)
    requires KeyPatternAt(name, i)
    ensures |key| == 5 && key[3] == '-' && IsSemesterCode(key[4])
    ensures forall j :: 0 <= j < 3 ==> IsDigit(key[j])
  {
    name[i + 12..i + 15] + "-" + [name[i + 15]]
  }

  /** The leftmost match at or after index `i`, as the regular expression finds it. */
  function GroupKeyFrom(name: string, i: nat): (r: Option<string>)
    requires i <= |name|
    ensures r.None? ==> forall j :: i <= j <= |name| ==> !KeyPatternAt(name, j)
    ensures r.Some? ==> exists j :: (i <= j <= |name| && KeyPatternAt(name, j) && r.value == KeyAt(name, j) &&
      forall k :: i <= k < j ==> !KeyPatternAt(name, k))
    decreases |name| - i
  {
    if i == |name| then None
    else if KeyPatternAt(name, i) then Some(KeyAt(name, i))
    else
      var r := GroupKeyFrom(name, i + 1);
      assert r.Some? ==> exists j :: (i <= j <= |name| && KeyPatternAt(name, j) && r.value == KeyAt(name, j) &&
        forall k :: i <= k < j ==> !KeyPatternAt(name, k)) by {
        if r.Some? {
          var j :| i + 1 <= j <= |name| && KeyPatternAt(name, j) && r.value == KeyAt(name, j) &&
            forall k :: i + 1 <= k < j ==> !KeyPatternAt(name, k);
          assert forall k :: i <= k < j ==> !KeyPatternAt(name, k);
        }
      }
      r
  }

  /** `file.name.match(/all_classes_(\d{3})([123])_/)`, turned into the group key. */
  function GroupKey(name: string): (r: Option<string>)
    ensures r.None? <==> forall j :: 0 <= j <= |name| ==> !KeyPatternAt(name, j)
    ensures r.Some? ==> exists j :: (0 <= j <= |name| && KeyPatternAt(name, j) && r.value == KeyAt(name, j) &&
      forall k :: 0 <= k < j ==> !KeyPatternAt(name, k))
  {
    GroupKeyFrom(name, 0)
  }

  /** Files that survive the `.csv` filter and the pattern test. */
  predicate Eligible(f: FileInfo) {
    EndsWith(f.name, ".csv") && GroupKey(f.name).Some?
  }

  function Keys(groups: seq<Group>): (r: seq<string>)
    ensures |r| == |groups|
    ensures forall i :: 0 <= i < |groups| ==> r[i] == groups[i].key
  {
    if groups == [] then [] else [groups[0].key] + Keys(groups[1..])
  }

  /** `if (!acc[key]) acc[key] = []; acc[key].push(file)`: a new key goes last. */
  function AddFile(groups: seq<Group>, key: string, f: FileInfo): (r: seq<Group>)
    ensures key in Keys(groups) ==> |r| == |groups|
    ensures key !in Keys(groups) ==> |r| == |groups| + 1 && r[|groups|] == Group(key, [f])
    ensures forall i :: 0 <= i < |groups| ==> r[i].key == groups[i].key
    ensures forall i :: 0 <= i < |groups| ==>
      r[i].files == if groups[i].key == key && IndexOf(Keys(groups), key) == i then groups[i].files + [f] else groups[i].files
  {
    var i := IndexOf(Keys(groups), key);
    if i == -1 then groups + [Group(key, [f])]
    else groups[i := Group(key, groups[i].files + [f])]
  }

  /** The accumulator of the `filter(...).reduce(...)` after the whole listing. */
  function GroupFiles(files: seq<FileInfo>): seq<Group> {
    if files == [] then []
    else
      var groups := GroupFiles(files[..|files| - 1]);
      var f := files[|files| - 1];
      if Eligible(f) then AddFile(groups, GroupKey(f.name).value, f) else groups
  }

  /**
    The grouping loop: each `.csv` file whose name carries a key is pushed
    onto the list of its key.
  */
  method GroupByKey(files: seq<FileInfo>) returns (groups: seq<Group>)
    ensures groups == GroupFiles(files)
  {
    groups := [];
    var n := 0;
    while n < |files|
      invariant 0 <= n <= |files|
      invariant groups == GroupFiles(files[..n])
    {
      var f := files[n];
      assert files[..n + 1][..n] == files[..n];
      if EndsWith(f.name, ".csv") {
        var key := GroupKey(f.name);
        if key.Some? {
          groups := AddFile(groups, key.value, f);
        }
      }
      n := n + 1;
    }
    assert files[..|files|] == files;
  }

  /**
    The groups have distinct keys, none is empty, and every file in a group
    is an eligible file of the listing carrying that group's key.
  */
  ghost predicate GroupsOf(groups: seq<Group>, files: seq<FileInfo>) {
    NoDups(Keys(groups)) &&
    forall i :: 0 <= i < |groups| ==> (groups[i].files != [] &&
      forall f :: f in groups[i].files ==> f in files && Eligible(f) && GroupKey(f.name).value == groups[i].key)
  }

  lemma {:induction false} GroupFilesWellFormed(files: seq<FileInfo>)
    ensures GroupsOf(GroupFiles(files), files)
    decreases |files|
  {
    if files != [] {
      var init := files[..|files| - 1];
      GroupFilesWellFormed(init);
      var f := files[|files| - 1];
      if Eligible(f) {
        AddFileWellFormed(GroupFiles(init), init, files, GroupKey(f.name).value, f);
      } else {
        GroupsOfGrows(GroupFiles(init), init, files);
      }
    }
  }

  lemma GroupsOfGrows(groups: seq<Group>, init: seq<FileInfo>, files: seq<FileInfo>)
    requires GroupsOf(groups, init) && files != [] && init == files[..|files| - 1]
    ensures GroupsOf(groups, files)
  {
    forall i, f | 0 <= i < |groups| && f in groups[i].files ensures f in files {
      assert f in init;
    }
  }

  lemma AddFileWellFormed(groups: seq<Group>, init: seq<FileInfo>, files: seq<FileInfo>, key: string, f: FileInfo)
    requires GroupsOf(groups, init) && files != [] && init == files[..|files| - 1]
    requires f == files[|files| - 1] && Eligible(f) && key == GroupKey(f.name).value
    ensures GroupsOf(AddFile(groups, key, f), files)
  {
    GroupsOfGrows(groups, init, files);
    var r := AddFile(groups, key, f);
    if key !in Keys(groups) {
      assert Keys(r) == Keys(groups) + [key];
      forall p, q | 0 <= p < q < |Keys(r)| ensures Keys(r)[p] != Keys(r)[q] {
        if q == |groups| {
          assert Keys(r)[p] == Keys(groups)[p];
        } else {
          assert Keys(r)[p] == Keys(groups)[p] && Keys(r)[q] == Keys(groups)[q];
        }
      }
    } else {
      assert Keys(r) == Keys(groups);
    }
  }

  /** Every eligible file ends up in the group of its key. */
  lemma {:induction false} EveryEligibleFileGrouped(files: seq<FileInfo>, f: FileInfo)
    requires f in files && Eligible(f)
    ensures InGroup(GroupFiles(files), GroupKey(f.name).value, f)
    decreases |files|
  {
    var init := files[..|files| - 1];
    var last := files[|files| - 1];
    var groups := GroupFiles(init);
    if f in init {
      EveryEligibleFileGrouped(init, f);
      if Eligible(last) {
        AddFileKeeps(groups, GroupKey(last.name).value, last, GroupKey(f.name).value, f);
      }
    } else {
      assert files == init + [last];
      AddFilePlaces(groups, GroupKey(f.name).value, f);
    }
  }

  /** Some group with key `key` holds `f`. */
  ghost predicate InGroup(groups: seq<Group>, key: string, f: FileInfo) {
    exists i :: 0 <= i < |groups| && groups[i].key == key && f in groups[i].files
  }

  lemma AddFileKeeps(groups: seq<Group>, key: string, f: FileInfo, key': string, g: FileInfo)
    requires InGroup(groups, key', g)
    ensures InGroup(AddFile(groups, key, f), key', g)
  {
    var i :| 0 <= i < |groups| && groups[i].key == key' && g in groups[i].files;
    var r := AddFile(groups, key, f);
    assert r[i].key == key' && g in r[i].files;
  }

  lemma AddFilePlaces(groups: seq<Group>, key: string, f: FileInfo)
    ensures InGroup(AddFile(groups, key, f), key, f)
  {
    var r := AddFile(groups, key, f);
    if key in Keys(groups) {
      var i := IndexOf(Keys(groups), key);
      assert r[i].key == key && f in r[i].files;
    } else {
      assert r[|groups|].key == key && f in r[|groups|].files;
    }
  }

  /** `!LexLess(a, b)`: `a` is not before `b`, so it is at least `b`. */
  lemma NotLessTransitive(a: string, b: string, c: string)
    requires !LexLess(a, b) && !LexLess(b, c)
    ensures !LexLess(a, c)
  {
    LexLessTotal(a, b);
    LexLessTotal(b, c);
    LexLessTransitive(c, b, a);
    LexLessAsymmetric(c, a);
    if a == b || b == c {
    } else {
      assert LexLess(b, a) && LexLess(c, b);
    }
  }

  /** `f` is the file `sort` in descending name order puts first: the first with the greatest name. */
  ghost predicate IsLatest(group: seq<FileInfo>, f: FileInfo) {
    (forall g :: g in group ==> !LexLess(f.name, g.name)) &&
    exists i :: 0 <= i < |group| && group[i] == f && forall j :: 0 <= j < i ==> LexLess(group[j].name, f.name)
  }

  /**
    `group.sort((a, b) => b.name.localeCompare(a.name))[0]`: a stable
    descending sort puts first the earliest file with the greatest name,
    with code-point order standing in for the locale collation.
  */
  method LatestOf(group: seq<FileInfo>) returns (best: FileInfo)
    requires group != []
    ensures IsLatest(group, best)
  {
    best := group[0];
    var bi := 0;
    LexLessIrreflexive(best.name);
    var k := 1;
    while k < |group|
      invariant 1 <= k <= |group| && 0 <= bi < k && group[bi] == best
      invariant forall j :: 0 <= j < k ==> !LexLess(best.name, group[j].name)
      invariant forall j :: 0 <= j < bi ==> LexLess(group[j].name, best.name)
    {
      if LexLess(best.name, group[k].name) {
        ChallengerWins(group, k, best);
        best := group[k];
        bi := k;
        LexLessIrreflexive(best.name);
      }
      k := k + 1;
    }
  }

  lemma ChallengerWins(group: seq<FileInfo>, k: nat, best: FileInfo)
    requires k < |group| && LexLess(best.name, group[k].name)
    requires forall j :: 0 <= j < k ==> !LexLess(best.name, group[j].name)
    ensures forall j :: 0 <= j < k ==> LexLess(group[j].name, group[k].name)
    ensures forall j :: 0 <= j < k ==> !LexLess(group[k].name, group[j].name)
  {
    forall j | 0 <= j < k
      ensures LexLess(group[j].name, group[k].name) && !LexLess(group[k].name, group[j].name)
    {
      LexLessTotal(best.name, group[j].name);
      LexLessTransitive(group[j].name, best.name, group[k].name);
      LexLessAsymmetric(group[j].name, group[k].name);
    }
  }

  /** `Object.values(groupedFiles).map(group => latest of group)` */
  method LatestFiles(groups: seq<Group>) returns (r: seq<FileInfo>)
    requires forall i :: 0 <= i < |groups| ==> groups[i].files != []
    ensures |r| == |groups|
    ensures forall i :: 0 <= i < |groups| ==> IsLatest(groups[i].files, r[i])
  {
    r := [];
    var n := 0;
    while n < |groups|
      invariant 0 <= n <= |groups| && |r| == n
      invariant forall i :: 0 <= i < n ==> IsLatest(groups[i].files, r[i])
    {
      var best := LatestOf(groups[n].files);
      r := r + [best];
      n := n + 1;
    }
  }

  /**
    `getAvailableSemesters` on a fetched listing: one file per
    `academicYear-semester` key, in order of the key's first appearance,
    each the greatest-named file of its key.
  */
  method GetAvailableSemesters(files: seq<FileInfo>) returns (r: seq<FileInfo>)
    ensures files == [] ==> r == []
    ensures |r| == |GroupFiles(files)|
    ensures forall i :: 0 <= i < |r| ==> IsLatest(GroupFiles(files)[i].files, r[i])
  {
    if |files| == 0 {
      return [];
    }
    var groups := GroupByKey(files);
    GroupFilesWellFormed(files);
    r := LatestFiles(groups);
  }

  /**
    Exactly one file per key: the returned files carry distinct keys, and
    every eligible file of the listing has its key represented by a file at
    least as great.
  */
  lemma OnePerKey(files: seq<FileInfo>, r: seq<FileInfo>)
    requires |r| == |GroupFiles(files)|
    requires forall i :: 0 <= i < |r| ==> IsLatest(GroupFiles(files)[i].files, r[i])
    ensures forall i :: 0 <= i < |r| ==> (r[i] in files && Eligible(r[i]) &&
      GroupKey(r[i].name).value == GroupFiles(files)[i].key)
    ensures forall f :: f in files && Eligible(f) ==> Represented(r, f)
  {
    var groups := GroupFiles(files);
    GroupFilesWellFormed(files);
    forall f | f in files && Eligible(f) ensures Represented(r, f) {
      EveryEligibleFileGrouped(files, f);
      var i :| 0 <= i < |groups| && groups[i].key == GroupKey(f.name).value && f in groups[i].files;
      assert r[i] in groups[i].files;
    }
  }

  /** Some returned file has the key of `f` and a name at least as great. */
  ghost predicate Represented(r: seq<FileInfo>, f: FileInfo) {
    exists i :: 0 <= i < |r| && GroupKey(r[i].name) == GroupKey(f.name) && !LexLess(r[i].name, f.name)
  }

  /** Files whose names lack the `.csv` suffix or the key pattern are dropped. */
  lemma IneligibleDropped(files: seq<FileInfo>, f: FileInfo)
    requires !Eligible(f)
    ensures forall i :: 0 <= i < |GroupFiles(files)| ==> f !in GroupFiles(files)[i].files
  {
    GroupFilesWellFormed(files);
  }

  /** What the page holds after the listing is processed. */
  datatype VersionState = VersionState(available: seq<FileInfo>, current: FileInfo)

  /** `latest` holds, key by key, the file `getAvailableSemesters` picks. */
  ghost predicate PerKeyLatest(files: seq<FileInfo>, latest: seq<FileInfo>) {
    |latest| == |GroupFiles(files)| &&
    forall i :: 0 <= i < |latest| ==> IsLatest(GroupFiles(files)[i].files, latest[i])
  }

  /** No file comes before a later one in name order. */
  predicate DescendingByName(s: seq<FileInfo>) {
    forall i, j :: 0 <= i < j < |s| ==> !LexLess(s[i].name, s[j].name)
  }

  /** `f` goes in front of the first file whose name is smaller, after every file whose name is at least its own. */
  function InsertByNameDesc(f: FileInfo, r: seq<FileInfo>): (t: seq<FileInfo>)
    requires DescendingByName(r)
    ensures DescendingByName(t)
    ensures multiset(t) == multiset(r) + multiset{f}
    ensures r == [] || !LexLess(f.name, r[0].name) ==> t[0] == f
    ensures r != [] && LexLess(f.name, r[0].name) ==> t[0] == r[0]
  {
    if r == [] || !LexLess(f.name, r[0].name) then
      InsertFrontDescending(f, r);
      [f] + r
    else
      var u := InsertByNameDesc(f, r[1..]);
      InsertBehindDescending(r[0], f, r[1..], u);
      assert r == [r[0]] + r[1..];
      [r[0]] + u
  }

  lemma InsertFrontDescending(f: FileInfo, r: seq<FileInfo>)
    requires DescendingByName(r) && (r == [] || !LexLess(f.name, r[0].name))
    ensures DescendingByName([f] + r)
  {
    forall j | 0 < j < |r| + 1 ensures !LexLess(f.name, ([f] + r)[j].name) {
      if j > 1 {
        NotLessTransitive(f.name, r[0].name, r[j - 1].name);
      }
    }
  }

  lemma InsertBehindDescending(g: FileInfo, f: FileInfo, r: seq<FileInfo>, u: seq<FileInfo>)
    requires DescendingByName([g] + r) && LexLess(f.name, g.name) && DescendingByName(u)
    requires multiset(u) == multiset(r) + multiset{f}
    ensures DescendingByName([g] + u)
  {
    forall j | 0 <= j < |u| ensures !LexLess(g.name, u[j].name) {
      assert u[j] in multiset(u);
      if u[j] == f {
        LexLessAsymmetric(f.name, g.name);
      } else {
        assert u[j] in multiset(r);
        var k :| 0 <= k < |r| && r[k] == u[j];
        assert ([g] + r)[k + 1] == r[k] && ([g] + r)[0] == g;
      }
    }
    forall i, j | 0 <= i < j < |u| + 1 ensures !LexLess(([g] + u)[i].name, ([g] + u)[j].name) {
      if i > 0 {
        assert ([g] + u)[j] == u[j - 1] && ([g] + u)[i] == u[i - 1];
      }
    }
  }

  /**
    `files.sort((a, b) => b.name.localeCompare(a.name))`: descending by
    name, and stable, so the first file is the earliest with the greatest
    name; code-point order stands in for the locale collation.
  */
  function SortByNameDesc(files: seq<FileInfo>): (r: seq<FileInfo>)
    ensures DescendingByName(r)
    ensures multiset(r) == multiset(files) && |r| == |files|
    ensures files != [] ==> IsLatest(files, r[0])
  {
    if files == [] then []
    else
      var rest := SortByNameDesc(files[1..]);
      assert files == [files[0]] + files[1..];
      assert multiset(files) == multiset(files[1..]) + multiset{files[0]};
      var r := InsertByNameDesc(files[0], rest);
      SortedFrontIsLatest(files, rest, r);
      r
  }

  /** Inserting the first file into the sorted remainder puts the earliest greatest-named file first. */
  lemma SortedFrontIsLatest(files: seq<FileInfo>, rest: seq<FileInfo>, r: seq<FileInfo>)
    requires files != [] && multiset(rest) == multiset(files[1..]) && DescendingByName(rest)
    requires files[1..] != [] ==> IsLatest(files[1..], rest[0])
    requires r != [] && (rest == [] || !LexLess(files[0].name, rest[0].name) ==> r[0] == files[0])
    requires rest != [] && LexLess(files[0].name, rest[0].name) ==> r[0] == rest[0]
    ensures IsLatest(files, r[0])
  {
    var f := files[0];
    assert files == [f] + files[1..];
    LexLessIrreflexive(f.name);
    if rest == [] {
      assert files[1..] == [];
      assert forall g :: g in files ==> g == f;
    } else {
      assert files[1..] != [] by {
        assert rest[0] in multiset(rest);
      }
      var m := rest[0];
      if !LexLess(f.name, m.name) {
        forall g | g in files ensures !LexLess(f.name, g.name) {
          if g != f {
            assert g in files[1..];
            NotLessTransitive(f.name, m.name, g.name);
          }
        }
        assert files[0] == r[0];
      } else {
        LexLessAsymmetric(f.name, m.name);
        forall g | g in files ensures !LexLess(m.name, g.name) {
          if g != f {
            assert g in files[1..];
          }
        }
        var i :| 0 <= i < |files[1..]| && files[1..][i] == m &&
          forall j :: 0 <= j < i ==> LexLess(files[1..][j].name, m.name);
        assert files[i + 1] == m;
        assert forall j :: 0 <= j < i + 1 ==> LexLess(files[j].name, m.name) by {
          forall j | 0 <= j < i + 1 ensures LexLess(files[j].name, m.name) {
            if j > 0 {
              assert files[j] == files[1..][j - 1];
            }
          }
        }
      }
    }
  }

  /**
    Loading the listing: the per-key latest files become the available
    versions, and `latestFiles.sort(...)` then sorts that same array in
    place, descending by name, so the stored list ends up sorted and its
    first file, the greatest, is opened. An empty listing throws
    (`抓取課程資料失敗。`); so does a listing with no eligible file, when
    `latestFile.name` is read from `undefined`.
  */
  method LoadVersions(files: seq<FileInfo>) returns (o: Outcome<VersionState>)
    ensures o.Throws? <==> GroupFiles(files) == []
    ensures o.Value? ==> exists latest :: PerKeyLatest(files, latest) && o.value.available == SortByNameDesc(latest)
    ensures o.Value? ==> o.value.available != [] && o.value.current == o.value.available[0]
    ensures o.Value? ==> DescendingByName(o.value.available) && |o.value.available| == |GroupFiles(files)|
    ensures o.Value? ==> forall f :: f in files && Eligible(f) ==> !LexLess(o.value.current.name, f.name)
  {
    if |files| == 0 {
      return Throws;
    }
    var latestFiles := GetAvailableSemesters(files);
    if |latestFiles| == 0 {
      return Throws;
    }
    var available := SortByNameDesc(latestFiles);
    var latest := available[0];
    LatestOverall(files, latestFiles, latest);
    assert PerKeyLatest(files, latestFiles);
    o := Value(VersionState(available, latest));
  }

  /** The greatest of the per-key latest files is the greatest eligible file. */
  lemma LatestOverall(files: seq<FileInfo>, latestFiles: seq<FileInfo>, latest: FileInfo)
    requires |latestFiles| == |GroupFiles(files)|
    requires forall i :: 0 <= i < |latestFiles| ==> IsLatest(GroupFiles(files)[i].files, latestFiles[i])
    requires IsLatest(latestFiles, latest)
    ensures forall f :: f in files && Eligible(f) ==> !LexLess(latest.name, f.name)
  {
    OnePerKey(files, latestFiles);
    forall f | f in files && Eligible(f) ensures !LexLess(latest.name, f.name) {
      LatestBeats(latestFiles, latest, f);
    }
  }

  lemma LatestBeats(latestFiles: seq<FileInfo>, latest: FileInfo, f: FileInfo)
    requires IsLatest(latestFiles, latest) && Represented(latestFiles, f)
    ensures !LexLess(latest.name, f.name)
  {
    var i :| 0 <= i < |latestFiles| && GroupKey(latestFiles[i].name) == GroupKey(f.name) &&
      !LexLess(latestFiles[i].name, f.name);
    assert latestFiles[i] in latestFiles;
    NotLessTransitive(latest.name, latestFiles[i].name, f.name);
  }

  /** The readable form of a file name, or the name itself. */
  datatype VersionLabel = Raw(text: string) | Formatted(academicYear: string, semester: string, date: string)

  /** `all_classes_(\d{3})([123])_(\d{4})(\d{2})(\d{2})\.csv` matches at index `i`. */
  predicate VersionPatternAt(name: string, i: nat) {
    KeyPatternAt(name, i) && i + 29 <= |name| &&
    (forall j :: i + 17 <= j < i + 25 ==> IsDigit(name[j])) &&
    name[i + 25..i + 29] == ".csv"
  }

  /** The index of the leftmost match at or after `i`. */
  function VersionMatchFrom(name: string, i: nat): (r: Option<nat>)
    requires i <= |name|
    ensures r.None? ==> forall j :: i <= j <= |name| ==> !VersionPatternAt(name, j)
    ensures r.Some? ==> (i <= r.value <= |name| && VersionPatternAt(name, r.value) &&
      forall k :: i <= k < r.value ==> !VersionPatternAt(name, k))
    decreases |name| - i
  {
    if i == |name| then None
    else if VersionPatternAt(name, i) then Some(i)
    else VersionMatchFrom(name, i + 1)
  }

  function SemesterText(code: char): (t: string)
    ensures t in ["上", "下", "暑"]
  {
    if code == '1' then "上" else if code == '2' then "下" else "暑"
  }

  /**
    `convertVersion`: a name without a match stays as it is; otherwise the
    academic year as a number (no leading zeros), 上/下/暑 for the semester
    code, and the eight date digits followed by ` 資料`.
  */
  function ConvertVersion(version: string): (r: VersionLabel)
    ensures r.Raw? <==> forall j :: 0 <= j <= |version| ==> !VersionPatternAt(version, j)
    ensures r.Raw? ==> r.text == version
    ensures r.Formatted? ==> r.semester in ["上", "下", "暑"] && ParseInt(r.academicYear).Some?
  {
    match VersionMatchFrom(version, 0)
    case None => Raw(version)
    case Some(i) =>
      var digits := version[i + 12..i + 15];
      var year := DecimalValue(digits);
      ParseIntOfIntToString(year);
      Formatted(NatToString(year), SemesterText(version[i + 15]), version[i + 17..i + 25] + " 資料")
  }

  /** The three-digit, zero-padded rendering of an academic year below 1000. */
  function Pad3(y: nat): (s: string)
    requires y < 1000
    ensures |s| == 3 && forall j :: 0 <= j < 3 ==> IsDigit(s[j])
  {
    [DigitChar(y / 100), DigitChar(y / 10 % 10), DigitChar(y % 10)]
  }

  lemma Pad3Value(y: nat)
    requires y < 1000
    ensures DecimalValue(Pad3(y)) == y
  {
    var s := Pad3(y);
    assert s[..2][..1] == s[..1];
    assert DecimalValue(s[..1]) == y / 100;
    assert DecimalValue(s[..2]) == y / 100 * 10 + y / 10 % 10;
  }

  /** The file name the data repository gives a snapshot. */
  function FileName(year: nat, code: char, date: string): string
    requires year < 1000
  {
    Prefix + Pad3(year) + [code] + "_" + date + ".csv"
  }

  /** A well-formed file name is shown as its year, semester and date. */
  lemma ConvertVersionOfFileName(year: nat, code: char, date: string)
    requires year < 1000 && IsSemesterCode(code)
    requires |date| == 8 && forall j :: 0 <= j < 8 ==> IsDigit(date[j])
    ensures ConvertVersion(FileName(year, code, date)) == Formatted(NatToString(year), SemesterText(code), date + " 資料")
  {
    var name := FileName(year, code, date);
    FileNameMatches(year, code, date);
    assert VersionMatchFrom(name, 0) == Some(0);
    Pad3Value(year);
  }

  /** A well-formed file name matches the version pattern at its start, with the year and date where the captures read them. */
  lemma FileNameMatches(year: nat, code: char, date: string)
    requires year < 1000 && IsSemesterCode(code)
    requires |date| == 8 && forall j :: 0 <= j < 8 ==> IsDigit(date[j])
    ensures var name := FileName(year, code, date);
      VersionPatternAt(name, 0) && name[12..15] == Pad3(year) && name[15] == code && name[17..25] == date
  {
    var name := FileName(year, code, date);
    assert name[..12] == Prefix && name[12..15] == Pad3(year) && name[15] == code && name[16] == '_';
    assert name[17..25] == date && name[25..29] == ".csv";
  }
}
