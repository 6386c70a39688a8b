/// DuplicatesProcessor: the classification of the files a query finds (by
/// whether they lie in the "isolated duplicates" folder of their location,
/// then by blob), and the two actions on duplicates: moving files into that
/// folder and deleting files from it.
module Processing {
  import opened DotNet
  import opened BlobInfos
  import opened FsEntities
  import opened DataLocations
  import opened FileStates
  import opened Grouping
  import opened Duplicates
  import BP = BlobPeculiarities
  import DC = DataController

  /// DuplicatesProcessor.FOLDER_NAME_FOR_DUPLICATES.
  const FolderNameForDuplicates := "isolated duplicates"

  /// The two FindDirectory lookups of the index, which the index class of
  /// this model does not declare: by parent and name, and by full path, each
  /// answered against the set of registered directories. Not found is None.
  datatype Lookups = Lookups(
    findChild: (set<FsEntity>, Option<FsEntity>, string) -> Option<FsEntity>,
    findByPath: (set<FsEntity>, string) -> Option<FsEntity>)

  /// The two queries of the index that return FileInfos, in the form the
  /// processor calls them, which the index class of this model does not
  /// declare: the duplicates of the latest inspections of the locations,
  /// and the current files of a set of directories and their
  /// subdirectories. Either may throw.
  datatype Queries = Queries(
    getDuplicates: seq<DataLocation> -> Result<seq<FileInfo>>,
    getDirectoryCurrentFiles: set<FsEntity> -> Result<seq<FileInfo>>)

  /// Every FileInfo the queries can return for the locations is one of
  /// `known`, and each carries its own blob.
  ghost predicate QueriesWithin(queries: Queries, dataLocations: seq<DataLocation>, known: set<FileInfo>)
    reads known
  {
    (forall f :: queries.getDuplicates(dataLocations).Ok? && f in queries.getDuplicates(dataLocations).value ==>
      f in known) &&
    (forall ds, f :: queries.getDirectoryCurrentFiles(ds).Ok? && f in queries.getDirectoryCurrentFiles(ds).value ==>
      f in known) &&
    forall f :: f in known ==> f.Valid()
  }

  /// The report the processor builds and updates. The report class of this
  /// model follows DuplicateReport.cs, whose constructor takes other
  /// arguments and which has neither AddFileInfo nor RemoveFileInfo; this
  /// class stands in for the report those calls expect: the groups and the
  /// locations it is built from, and the FileInfos handed to it since, in
  /// order.
  datatype ReportChange = FileInfoAdded(info: FileInfo) | FileInfoRemoved(info: FileInfo)

  class ProcessorReport {
    const groups: seq<SameContentFilesInfo>
    const dataLocations: seq<DataLocation>
    var changes: seq<ReportChange>

    constructor (groups: seq<SameContentFilesInfo>, dataLocations: seq<DataLocation>)
      ensures this.groups == groups && this.dataLocations == dataLocations && changes == []
    {
      this.groups := groups;
      this.dataLocations := dataLocations;
      changes := [];
    }

    /// AddFileInfo: the FileInfo is handed to the report.
    method AddFileInfo(fileInfo: FileInfo)
      modifies this
      ensures changes == old(changes) + [FileInfoAdded(fileInfo)]
    {
      changes := changes + [FileInfoAdded(fileInfo)];
    }

    /// RemoveFileInfo: the FileInfo is taken out of the report.
    method RemoveFileInfo(fileInfo: FileInfo)
      modifies this
      ensures changes == old(changes) + [FileInfoRemoved(fileInfo)]
    {
      changes := changes + [FileInfoRemoved(fileInfo)];
    }
  }

  // ---------------------------------------------------------------------
  // The "isolated duplicates" directory of each location
  // ---------------------------------------------------------------------

  /// The "isolated duplicates" directory of a location: the child of that
  /// name of the location's root when the index has it, otherwise the
  /// directory registered under the combined path, otherwise none.
  function IsolatedDirectoryOf(l: DataLocation, registered: set<FsEntity>, lookups: Lookups): Option<FsEntity> {
    var child := lookups.findChild(registered, l.directory, FolderNameForDuplicates);
    if child.Some? then child else lookups.findByPath(registered, Combine(l.path, FolderNameForDuplicates))
  }

  /// The dictionary the lookup loop fills, location by location; adding a
  /// location a second time throws ArgumentException.
  function IsolatedDirectories(locations: seq<DataLocation>, registered: set<FsEntity>, lookups: Lookups)
    : Result<map<DataLocation, FsEntity>>
  {
    if locations == [] then Ok(map[])
    else
      var before := IsolatedDirectories(locations[..|locations| - 1], registered, lookups);
      var l := locations[|locations| - 1];
      var found := IsolatedDirectoryOf(l, registered, lookups);
      if before.Err? || found.None? then before
      else if l in before.value then Err(ArgumentException)
      else Ok(before.value[l := found.value])
  }

  /// No location whose directory is found occurs twice.
  predicate FoundOnce(locations: seq<DataLocation>, registered: set<FsEntity>, lookups: Lookups) {
    forall i, j :: 0 <= i < j < |locations| && locations[i] == locations[j] ==>
      IsolatedDirectoryOf(locations[i], registered, lookups).None?
  }

  /// The lookup fails exactly when a location with a directory occurs
  /// twice, and then with ArgumentException.
  lemma {:induction false} IsolatedDirectoriesMeaning(locations: seq<DataLocation>, registered: set<FsEntity>, lookups: Lookups)
    ensures IsolatedDirectories(locations, registered, lookups).Ok? <==> FoundOnce(locations, registered, lookups)
    ensures IsolatedDirectories(locations, registered, lookups).Err? ==>
      IsolatedDirectories(locations, registered, lookups).error == ArgumentException
  {
    if locations != [] {
      var r := IsolatedDirectories(locations, registered, lookups);
      var n := |locations| - 1;
      var init := locations[..n];
      IsolatedDirectoriesMeaning(init, registered, lookups);
      assert forall i :: 0 <= i < n ==> init[i] == locations[i];
      var before := IsolatedDirectories(init, registered, lookups);
      var l := locations[n];
      var found := IsolatedDirectoryOf(l, registered, lookups);
      if before.Err? {
        assert r == before;
        var i, j :| 0 <= i < j < n && init[i] == init[j] && IsolatedDirectoryOf(init[i], registered, lookups).Some?;
        assert locations[i] == locations[j];
      } else if found.None? {
        assert r == before;
        assert FoundOnce(init, registered, lookups);
      } else {
        IsolatedDirectoriesEntries(init, registered, lookups);
        if l in before.value {
          assert r == Err(ArgumentException);
          var i :| 0 <= i < n && init[i] == l;
          assert locations[i] == locations[n];
        } else {
          assert r.Ok?;
          assert FoundOnce(init, registered, lookups);
          assert forall i :: 0 <= i < n ==> init[i] != l;
          assert forall i :: 0 <= i < n ==> locations[i] != locations[n];
        }
      }
    }
  }

  /// Only the locations whose directory is found get an entry, holding that
  /// directory.
  lemma {:induction false} IsolatedDirectoriesEntries(locations: seq<DataLocation>, registered: set<FsEntity>, lookups: Lookups)
    ensures IsolatedDirectories(locations, registered, lookups).Ok? ==> forall l ::
      (l in IsolatedDirectories(locations, registered, lookups).value <==>
        l in locations && IsolatedDirectoryOf(l, registered, lookups).Some?)
    ensures IsolatedDirectories(locations, registered, lookups).Ok? ==> forall l ::
      l in IsolatedDirectories(locations, registered, lookups).value ==>
        IsolatedDirectories(locations, registered, lookups).value[l] == IsolatedDirectoryOf(l, registered, lookups).value
  {
    if locations != [] {
      var n := |locations| - 1;
      var init := locations[..n];
      IsolatedDirectoriesEntries(init, registered, lookups);
      assert locations == init + [locations[n]];
    }
  }

  /// Once a prefix of the locations fails, the whole lookup fails the same way.
  lemma {:induction false} IsolatedDirectoriesPrefixError(locations: seq<DataLocation>, n: nat, registered: set<FsEntity>,
                                                          lookups: Lookups)
    requires n <= |locations| && IsolatedDirectories(locations[..n], registered, lookups).Err?
    ensures IsolatedDirectories(locations, registered, lookups) == IsolatedDirectories(locations[..n], registered, lookups)
  {
    if n < |locations| {
      var m := |locations| - 1;
      assert locations[..m][..n] == locations[..n];
      IsolatedDirectoriesPrefixError(locations[..m], n, registered, lookups);
    } else {
      assert locations[..n] == locations;
    }
  }

  /// GetDirectoriesForIsolatedDuplicates.
  method GetDirectoriesForIsolatedDuplicates(controller: DC.DataControllerSimple, dataLocations: seq<DataLocation>,
                                             lookups: Lookups)
    returns (r: Result<map<DataLocation, FsEntity>>)
    ensures r == IsolatedDirectories(dataLocations, controller.directories, lookups)
  {
    var existing: map<DataLocation, FsEntity> := map[];
    for i := 0 to |dataLocations|
      invariant IsolatedDirectories(dataLocations[..i], controller.directories, lookups) == Ok(existing)
    {
      var l := dataLocations[i];
      ghost var prefix := dataLocations[..i + 1];
      assert prefix[..i] == dataLocations[..i] && prefix[i] == l;
      var directory := lookups.findChild(controller.directories, l.directory, FolderNameForDuplicates);
      if directory.None? {
        var path := Combine(l.path, FolderNameForDuplicates);
        directory := lookups.findByPath(controller.directories, path);
      }
      assert directory == IsolatedDirectoryOf(l, controller.directories, lookups);
      if directory.Some? {
        if l in existing {
          IsolatedDirectoriesPrefixError(dataLocations, i + 1, controller.directories, lookups);
          return Err(ArgumentException);
        }
        existing := existing[l := directory.value];
      }
    }
    assert dataLocations[..|dataLocations|] == dataLocations;
    r := Ok(existing);
  }

  // ---------------------------------------------------------------------
  // Tagging
  // ---------------------------------------------------------------------

  /// The sort a found duplicate is given: IsolatedDuplicate when its
  /// location has an "isolated duplicates" directory that holds the file,
  /// InOriginalLocation otherwise.
  function ExpectedSort(f: FileInfo, isolated: map<DataLocation, FsEntity>): DuplicateSort {
    if f.dataLocation in isolated && IsAncestor(isolated[f.dataLocation], f.file) then IsolatedDuplicate
    else InOriginalLocation
  }

  /// The index of the first file whose location has a directory but which
  /// the index does not know, so that asking whether it lies in the
  /// directory throws; the length when there is none.
  function FirstUnregistered(files: seq<FileInfo>, isolated: map<DataLocation, FsEntity>, registered: set<FileEntity>)
    : (k: nat)
    ensures k <= |files|
    ensures forall i :: 0 <= i < k ==> files[i].dataLocation !in isolated || files[i].file in registered
    ensures k < |files| ==> files[k].dataLocation in isolated && files[k].file !in registered
  {
    if files == [] then 0
    else if files[0].dataLocation in isolated && files[0].file !in registered then 0
    else 1 + FirstUnregistered(files[1..], isolated, registered)
  }

  /// SetDuplicateSortToFileInfo: tags each file in turn; the first file the
  /// index does not know, in a location with a directory, throws, leaving
  /// the files before it tagged and the rest as they were.
  method SetDuplicateSortToFileInfo(files: seq<FileInfo>, isolated: map<DataLocation, FsEntity>,
                                    controller: DC.DataControllerSimple)
    returns (outcome: Outcome)
    modifies set f | f in files
    ensures outcome.Pass? <==> FirstUnregistered(files, isolated, controller.files) == |files|
    ensures outcome.Fail? ==> outcome.error == ArgumentException
    ensures forall i :: 0 <= i < FirstUnregistered(files, isolated, controller.files) ==>
      files[i].sort == ExpectedSort(files[i], isolated)
    ensures forall f :: f in files && f !in files[..FirstUnregistered(files, isolated, controller.files)] ==>
      f.sort == old(f.sort)
    ensures forall f :: f in files ==> f.group == old(f.group)
  {
    var k := FirstUnregistered(files, isolated, controller.files);
    for i := 0 to |files|
      invariant i <= k
      invariant forall j :: 0 <= j < i ==> files[j].sort == ExpectedSort(files[j], isolated)
      invariant forall f :: f in files && f !in files[..i] ==> f.sort == old(f.sort)
      invariant forall f :: f in files ==> f.group == old(f.group)
    {
      var fileInfo := files[i];
      var duplicateSort;
      if fileInfo.dataLocation in isolated {
        var isFileInIsolatedDuplicatesDirectory := controller.IsFileFromDirectory(isolated[fileInfo.dataLocation], fileInfo.file);
        if isFileInIsolatedDuplicatesDirectory.Err? {
          return Fail(isFileInIsolatedDuplicatesDirectory.error);
        }
        duplicateSort := if isFileInIsolatedDuplicatesDirectory.value then IsolatedDuplicate else InOriginalLocation;
      } else {
        duplicateSort := InOriginalLocation;
      }
      fileInfo.SetDuplicateSort(duplicateSort);
      assert files[..i + 1] == files[..i] + [fileInfo];
    }
    outcome := Pass;
  }

  /// SetIsolatedDuplicateSortToFileInfo: every file becomes an isolated duplicate.
  method SetIsolatedDuplicateSortToFileInfo(files: seq<FileInfo>)
    modifies set f | f in files
    ensures forall f :: f in files ==> f.sort == IsolatedDuplicate && f.group == old(f.group)
  {
    for i := 0 to |files|
      invariant forall j :: 0 <= j < i ==> files[j].sort == IsolatedDuplicate
      invariant forall f :: f in files ==> f.group == old(f.group)
    {
      files[i].SetDuplicateSort(IsolatedDuplicate);
    }
  }

  // ---------------------------------------------------------------------
  // Grouping by blob
  // ---------------------------------------------------------------------

  /// The blob of each file paired with the file, in order.
  function BlobPairs(files: seq<FileInfo>): (pairs: seq<(BlobInfo, FileInfo)>)
    ensures |pairs| == |files| && forall i :: 0 <= i < |files| ==> pairs[i] == (files[i].blob, files[i])
  {
    if files == [] then [] else BlobPairs(files[..|files| - 1]) + [(files[|files| - 1].blob, files[|files| - 1])]
  }

  /// The dictionary of HashSets that GroupFilesWithSameContent fills.
  function BlobGroups(files: seq<FileInfo>): seq<Entry<BlobInfo, FileInfo>> {
    GroupBy(BlobPairs(files), true)
  }

  /// A blob group is not empty, does not repeat a file, and holds files of
  /// its own blob only.
  lemma {:induction false} BlobGroupMembers(files: seq<FileInfo>, e: Entry<BlobInfo, FileInfo>)
    requires e in BlobGroups(files)
    ensures e.values != []
    ensures forall i, j :: 0 <= i < j < |e.values| ==> e.values[i] != e.values[j]
    ensures forall f :: f in e.values ==> f in files && f.blob == e.key
  {
    var pairs := BlobPairs(files);
    GroupByEntries(pairs, true, e);
    var selected := Select(pairs, e.key);
    assert e.values == Distinct(selected);
    SelectMembers(pairs, e.key);
    DistinctElements(selected);
    var i :| 0 <= i < |pairs| && PairKeys(pairs)[i] == e.key;
    assert pairs[i] == (e.key, files[i]);
    assert files[i] in e.values;
    forall f | f in e.values
      ensures f in files && f.blob == e.key
    {
      assert (e.key, f) in pairs;
      var k :| 0 <= k < |pairs| && pairs[k] == (e.key, f);
    }
  }

  /// Every file is in the group of its blob.
  lemma {:induction false} BlobGroupOfFile(files: seq<FileInfo>, f: FileInfo)
    requires f in files
    ensures Entry(f.blob, Distinct(Select(BlobPairs(files), f.blob))) in BlobGroups(files)
    ensures f in Distinct(Select(BlobPairs(files), f.blob))
  {
    var pairs := BlobPairs(files);
    var i :| 0 <= i < |files| && files[i] == f;
    assert pairs[i] == (f.blob, f);
    assert PairKeys(pairs)[i] == f.blob;
    GroupByEntries(pairs, true, Entry(f.blob, Distinct(Select(pairs, f.blob))));
    SelectMembers(pairs, f.blob);
    DistinctElements(Select(pairs, f.blob));
  }

  /// The blob groups partition the files: no group is empty or repeats a
  /// file, no two groups share a blob, every member carries its group's
  /// blob, and every file is in the group of its blob.
  lemma {:induction false} BlobGroupsPartition(files: seq<FileInfo>)
    ensures DistinctKeys(BlobGroups(files))
    ensures forall e :: e in BlobGroups(files) ==> e.values != []
    ensures forall e :: e in BlobGroups(files) ==> forall i, j :: 0 <= i < j < |e.values| ==> e.values[i] != e.values[j]
    ensures forall e, f :: e in BlobGroups(files) && f in e.values ==> f in files && f.blob == e.key
    ensures forall f :: f in files ==> exists e :: e in BlobGroups(files) && e.key == f.blob && f in e.values
  {
    GroupByKeys(BlobPairs(files), true);
    forall e | e in BlobGroups(files)
      ensures e.values != []
      ensures forall i, j :: 0 <= i < j < |e.values| ==> e.values[i] != e.values[j]
      ensures forall f :: f in e.values ==> f in files && f.blob == e.key
    {
      BlobGroupMembers(files, e);
    }
    forall f | f in files
      ensures exists e :: e in BlobGroups(files) && e.key == f.blob && f in e.values
    {
      BlobGroupOfFile(files, f);
    }
  }

  /// A new group built for a blob group: its blob and members, and an empty cache.
  ghost predicate Mirrors(g: SameContentFilesInfo, e: Entry<BlobInfo, FileInfo>)
    reads g
  {
    g.peculiarities == BP.None && g.blob == e.key && g.duplicates == e.values
  }

  /// The groups mirror the blob groups of the files, one for one.
  ghost predicate MirrorsAll(groups: seq<SameContentFilesInfo>, files: seq<FileInfo>)
    reads set g | g in groups
  {
    |groups| == |BlobGroups(files)| && forall j :: 0 <= j < |groups| ==> Mirrors(groups[j], BlobGroups(files)[j])
  }

  /// GroupFilesWithSameContent: one new SameContentFilesInfo per blob
  /// group, in the order the blobs were met; building each attaches it to
  /// its members, and no building throws, since every member carries the
  /// group's blob.
  method GroupFilesWithSameContent(files: seq<FileInfo>) returns (groups: seq<SameContentFilesInfo>)
    requires forall f :: f in files ==> f.Valid()
    modifies set f | f in files
    ensures |groups| == |BlobGroups(files)|
    ensures forall j :: 0 <= j < |groups| ==> fresh(groups[j]) && Mirrors(groups[j], BlobGroups(files)[j])
    ensures forall f :: f in files ==> f.group in groups && f in f.group.duplicates
    ensures forall f :: f in files ==> f.Valid() && f.sort == old(f.sort)
  {
    var blobGroups := CollectBlobGroups(files);
    BlobGroupsPartition(files);
    groups := AttachGroups(files, blobGroups);
  }

  /// Files that all carry the blob have no first mismatch.
  lemma NoMismatch(blob: BlobInfo, files: seq<FileInfo>)
    requires forall f :: f in files ==> f.blob == blob
    ensures FirstMismatch(blob, files) == |files|
  {
  }

  /// The first loop of GroupFilesWithSameContent: each file added to the
  /// HashSet of its blob, read through the BlobInfo getter.
  method CollectBlobGroups(files: seq<FileInfo>) returns (blobGroups: seq<Entry<BlobInfo, FileInfo>>)
    requires forall f :: f in files ==> f.Valid()
    ensures blobGroups == BlobGroups(files)
  {
    blobGroups := [];
    for i := 0 to |files|
      invariant blobGroups == GroupBy(BlobPairs(files[..i]), true)
    {
      var blobInfo := files[i].CurrentBlob();
      assert files[..i + 1][..i] == files[..i];
      blobGroups := Add(blobGroups, blobInfo, files[i], true);
    }
    assert files[..|files|] == files;
  }

  /// One step of the second loop: the group built for a blob group, attached
  /// to every member.
  method NewGroup(e: Entry<BlobInfo, FileInfo>) returns (info: SameContentFilesInfo)
    requires forall f :: f in e.values ==> f.blob == e.key && f.Valid()
    modifies set f | f in e.values
    ensures fresh(info) && Mirrors(info, e)
    ensures forall f :: f in e.values ==> f.group == info && f.Valid() && f.sort == old(f.sort)
  {
    NoMismatch(e.key, e.values);
    var outcome;
    info, outcome := SameContentFilesInfo.New(e.key, e.values);
  }

  /// The second loop of GroupFilesWithSameContent.
  method AttachGroups(files: seq<FileInfo>, blobGroups: seq<Entry<BlobInfo, FileInfo>>)
    returns (groups: seq<SameContentFilesInfo>)
    requires forall f :: f in files ==> f.Valid()
    requires DistinctKeys(blobGroups)
    requires forall e, f :: e in blobGroups && f in e.values ==> f in files && f.blob == e.key
    requires forall f :: f in files ==> exists e :: e in blobGroups && e.key == f.blob && f in e.values
    modifies set f | f in files
    ensures |groups| == |blobGroups|
    ensures forall j :: 0 <= j < |groups| ==> fresh(groups[j]) && Mirrors(groups[j], blobGroups[j])
    ensures forall f :: f in files ==> f.group in groups && f in f.group.duplicates
    ensures forall f :: f in files ==> f.Valid() && f.sort == old(f.sort)
  {
    groups := [];
    for i := 0 to |blobGroups|
      invariant |groups| == i
      invariant forall j :: 0 <= j < i ==> fresh(groups[j]) && Mirrors(groups[j], blobGroups[j])
      invariant forall j, f :: 0 <= j < i && f in blobGroups[j].values ==> f.group == groups[j]
      invariant forall f :: f in files && (forall j :: 0 <= j < i ==> blobGroups[j].key != f.blob) ==> f.group == old(f.group)
      invariant forall f :: f in files ==> f.Valid() && f.sort == old(f.sort)
    {
      var e := blobGroups[i];
      assert e in blobGroups;
      var duplicatesInfo := NewGroup(e);
      forall j, f | 0 <= j < i && f in blobGroups[j].values
        ensures f.group == groups[j]
      {
        assert blobGroups[j] in blobGroups;
        assert f !in e.values;
      }
      groups := groups + [duplicatesInfo];
    }
    forall f | f in files
      ensures f.group in groups && f in f.group.duplicates
    {
      var e :| e in blobGroups && e.key == f.blob && f in e.values;
      var j :| 0 <= j < |blobGroups| && blobGroups[j] == e;
    }
  }

  // ---------------------------------------------------------------------
  // The groups to report
  // ---------------------------------------------------------------------

  /// The blobs of the groups, in order.
  function Blobs(groups: seq<SameContentFilesInfo>): (bs: seq<BlobInfo>)
    ensures |bs| == |groups| && forall i :: 0 <= i < |groups| ==> bs[i] == groups[i].blob
  {
    if groups == [] then [] else Blobs(groups[..|groups| - 1]) + [groups[|groups| - 1].blob]
  }

  /// No two groups carry the same blob.
  predicate DistinctBlobs(groups: seq<SameContentFilesInfo>) {
    forall i, j :: 0 <= i < j < |groups| ==> groups[i].blob != groups[j].blob
  }

  /// HashSet<SameContentFilesInfo>.Add: groups are equal when their blobs
  /// are, so a group is added only when no group with its blob is present.
  function AddByBlob(groups: seq<SameContentFilesInfo>, g: SameContentFilesInfo): seq<SameContentFilesInfo> {
    if g.blob in Blobs(groups) then groups else groups + [g]
  }

  /// Adding the groups of more, one by one.
  function UnionByBlob(groups: seq<SameContentFilesInfo>, more: seq<SameContentFilesInfo>): seq<SameContentFilesInfo> {
    if more == [] then groups else AddByBlob(UnionByBlob(groups, more[..|more| - 1]), more[|more| - 1])
  }

  /// Adding to a set of groups keeps the groups already present, in order.
  lemma {:induction false} UnionByBlobGrows(groups: seq<SameContentFilesInfo>, more: seq<SameContentFilesInfo>)
    ensures groups <= UnionByBlob(groups, more)
  {
    if more != [] {
      UnionByBlobGrows(groups, more[..|more| - 1]);
    }
  }

  /// A group of more is added only when no group already present or added
  /// before carries its blob, so blobs are never repeated.
  lemma {:induction false} UnionByBlobMeaning(groups: seq<SameContentFilesInfo>, more: seq<SameContentFilesInfo>)
    requires DistinctBlobs(groups)
    ensures DistinctBlobs(UnionByBlob(groups, more))
    ensures forall i :: |groups| <= i < |UnionByBlob(groups, more)| ==>
      UnionByBlob(groups, more)[i] in more && UnionByBlob(groups, more)[i].blob !in Blobs(groups)
  {
    if more != [] {
      var init := more[..|more| - 1];
      var g := more[|more| - 1];
      UnionByBlobMeaning(groups, init);
      UnionByBlobGrows(groups, init);
      var u := UnionByBlob(groups, init);
      assert forall x :: x in init ==> x in more;
      if g.blob !in Blobs(u) {
        assert UnionByBlob(groups, more) == u + [g];
        BlobsOfPrefix(groups, u);
        assert forall i :: 0 <= i < |u| ==> Blobs(u)[i] != g.blob;
      }
    }
  }

  /// A group set that extends another carries all of its blobs.
  lemma {:induction false} BlobsOfPrefix(groups: seq<SameContentFilesInfo>, larger: seq<SameContentFilesInfo>)
    requires groups <= larger
    ensures forall b :: b in Blobs(groups) ==> b in Blobs(larger)
  {
    forall b | b in Blobs(groups)
      ensures b in Blobs(larger)
    {
      var i :| 0 <= i < |groups| && Blobs(groups)[i] == b;
      assert Blobs(larger)[i] == b;
    }
  }

  /// Every blob of more is carried by some group after adding them.
  lemma {:induction false} UnionByBlobCovers(groups: seq<SameContentFilesInfo>, more: seq<SameContentFilesInfo>)
    ensures forall g :: g in more ==> g.blob in Blobs(UnionByBlob(groups, more))
  {
    if more != [] {
      var init := more[..|more| - 1];
      var g := more[|more| - 1];
      UnionByBlobCovers(groups, init);
      var u := UnionByBlob(groups, init);
      var r := UnionByBlob(groups, more);
      assert u <= r;
      if g.blob !in Blobs(u) {
        assert Blobs(r)[|u|] == g.blob;
      }
      forall x | x in more
        ensures x.blob in Blobs(r)
      {
        if x != g {
          assert x in init;
          var i :| 0 <= i < |u| && Blobs(u)[i] == x.blob;
          assert Blobs(r)[i] == x.blob;
        }
      }
    }
  }

  /// GetFilesToReport: the set built from the duplicate groups, then each
  /// group from the isolated folders whose blob is not yet present.
  method GetFilesToReport(duplicatesByHash: seq<SameContentFilesInfo>, filesFromIsolatedDuplicatesFolder: seq<SameContentFilesInfo>)
    returns (filesToReport: seq<SameContentFilesInfo>)
    ensures filesToReport == FilesToReport(duplicatesByHash, filesFromIsolatedDuplicatesFolder)
  {
    filesToReport := UnionByBlob([], duplicatesByHash);
    ghost var start := filesToReport;
    for i := 0 to |filesFromIsolatedDuplicatesFolder|
      invariant filesToReport == UnionByBlob(start, filesFromIsolatedDuplicatesFolder[..i])
    {
      var sameContentIsolatedFiles := filesFromIsolatedDuplicatesFolder[i];
      assert filesFromIsolatedDuplicatesFolder[..i + 1][..i] == filesFromIsolatedDuplicatesFolder[..i];
      if sameContentIsolatedFiles.blob !in Blobs(filesToReport) {
        filesToReport := filesToReport + [sameContentIsolatedFiles];
      }
    }
    assert filesFromIsolatedDuplicatesFolder[..|filesFromIsolatedDuplicatesFolder|] == filesFromIsolatedDuplicatesFolder;
  }

  /// The groups to report for the duplicate groups and the groups of the
  /// isolated folders.
  function FilesToReport(duplicatesByHash: seq<SameContentFilesInfo>, isolatedGroups: seq<SameContentFilesInfo>)
    : seq<SameContentFilesInfo>
  {
    UnionByBlob(UnionByBlob([], duplicatesByHash), isolatedGroups)
  }

  /// The set built from the duplicate groups: distinct blobs, taken from
  /// the groups, covering each of their blobs.
  lemma {:induction false} FirstSetMeaning(duplicatesByHash: seq<SameContentFilesInfo>)
    ensures DistinctBlobs(UnionByBlob([], duplicatesByHash))
    ensures forall g :: g in UnionByBlob([], duplicatesByHash) ==> g in duplicatesByHash
    ensures forall b :: b in Blobs(duplicatesByHash) ==> b in Blobs(UnionByBlob([], duplicatesByHash))
  {
    UnionByBlobMeaning([], duplicatesByHash);
    UnionByBlobCovers([], duplicatesByHash);
    forall b | b in Blobs(duplicatesByHash)
      ensures b in Blobs(UnionByBlob([], duplicatesByHash))
    {
      var j :| 0 <= j < |duplicatesByHash| && Blobs(duplicatesByHash)[j] == b;
      assert duplicatesByHash[j] in duplicatesByHash;
    }
  }

  /// The groups to report never repeat a blob and come from the inputs; an
  /// isolated group is kept only for a blob that has no duplicate group.
  lemma {:induction false} FilesToReportOrigin(duplicatesByHash: seq<SameContentFilesInfo>, isolatedGroups: seq<SameContentFilesInfo>)
    ensures DistinctBlobs(FilesToReport(duplicatesByHash, isolatedGroups))
    ensures forall g :: g in FilesToReport(duplicatesByHash, isolatedGroups) ==>
      g in duplicatesByHash || (g in isolatedGroups && g.blob !in Blobs(duplicatesByHash))
  {
    var first := UnionByBlob([], duplicatesByHash);
    FirstSetMeaning(duplicatesByHash);
    UnionByBlobMeaning(first, isolatedGroups);
    UnionByBlobGrows(first, isolatedGroups);
    var r := UnionByBlob(first, isolatedGroups);
    forall g | g in r
      ensures g in duplicatesByHash || (g in isolatedGroups && g.blob !in Blobs(duplicatesByHash))
    {
      var i :| 0 <= i < |r| && r[i] == g;
      if i < |first| {
        assert first[i] == g;
      }
    }
  }

  /// Every blob of either input has a group to report.
  lemma {:induction false} FilesToReportCover(duplicatesByHash: seq<SameContentFilesInfo>, isolatedGroups: seq<SameContentFilesInfo>)
    ensures forall g :: g in duplicatesByHash ==> g.blob in Blobs(FilesToReport(duplicatesByHash, isolatedGroups))
    ensures forall g :: g in isolatedGroups ==> g.blob in Blobs(FilesToReport(duplicatesByHash, isolatedGroups))
  {
    var first := UnionByBlob([], duplicatesByHash);
    FirstSetMeaning(duplicatesByHash);
    UnionByBlobGrows(first, isolatedGroups);
    UnionByBlobCovers(first, isolatedGroups);
    BlobsOfPrefix(first, UnionByBlob(first, isolatedGroups));
    forall g | g in duplicatesByHash
      ensures g.blob in Blobs(first)
    {
      var j :| 0 <= j < |duplicatesByHash| && duplicatesByHash[j] == g;
      assert Blobs(duplicatesByHash)[j] == g.blob;
    }
  }

  /// Duplicate groups with distinct blobs are all kept, first and in order.
  lemma {:induction false} FilesToReportKeepsDuplicates(duplicatesByHash: seq<SameContentFilesInfo>,
                                                        isolatedGroups: seq<SameContentFilesInfo>)
    requires DistinctBlobs(duplicatesByHash)
    ensures duplicatesByHash <= FilesToReport(duplicatesByHash, isolatedGroups)
  {
    UnionOfDistinct(duplicatesByHash);
    UnionByBlobGrows(duplicatesByHash, isolatedGroups);
  }

  /// Building the set from groups with distinct blobs keeps them all, in order.
  lemma {:induction false} UnionOfDistinct(groups: seq<SameContentFilesInfo>)
    requires DistinctBlobs(groups)
    ensures UnionByBlob([], groups) == groups
  {
    if groups != [] {
      var init := groups[..|groups| - 1];
      UnionOfDistinct(init);
      assert groups[|groups| - 1].blob !in Blobs(init);
      assert init + [groups[|groups| - 1]] == groups;
    }
  }

  // ---------------------------------------------------------------------
  // GetDuplicatesFound
  // ---------------------------------------------------------------------

  /// Whether GetDuplicatesFound returns a report, and otherwise the first
  /// exception it meets: a null or empty collection of locations, a failing
  /// duplicates query, a location whose directory is added twice, a found
  /// file the index does not know in a location with a directory, a failing
  /// query of the directories' current files.
  function FoundOutcome(dataLocations: Option<seq<DataLocation>>, directories: set<FsEntity>, files: set<FileEntity>,
                        lookups: Lookups, queries: Queries): (o: Outcome)
    ensures dataLocations.None? || dataLocations.value == [] ==> o == Fail(ArgumentNullException)
    ensures o.Pass? ==> (dataLocations.Some? && dataLocations.value != [] &&
      queries.getDuplicates(dataLocations.value).Ok? &&
      IsolatedDirectories(dataLocations.value, directories, lookups).Ok?)
  {
    if dataLocations.None? || dataLocations.value == [] then Fail(ArgumentNullException)
    else
      var found := queries.getDuplicates(dataLocations.value);
      if found.Err? then Fail(found.error)
      else
        var isolated := IsolatedDirectories(dataLocations.value, directories, lookups);
        if isolated.Err? then Fail(isolated.error)
        else if FirstUnregistered(found.value, isolated.value, files) < |found.value| then Fail(ArgumentException)
        else
          var current := queries.getDirectoryCurrentFiles(isolated.value.Values);
          if current.Err? then Fail(current.error) else Pass
  }

  /// The files of the "isolated duplicates" directories that the current
  /// files query returns, once the earlier steps have passed.
  function IsolatedFiles(dataLocations: seq<DataLocation>, directories: set<FsEntity>, lookups: Lookups,
                         queries: Queries): seq<FileInfo>
    requires IsolatedDirectories(dataLocations, directories, lookups).Ok?
    requires queries.getDirectoryCurrentFiles(IsolatedDirectories(dataLocations, directories, lookups).value.Values).Ok?
  {
    queries.getDirectoryCurrentFiles(IsolatedDirectories(dataLocations, directories, lookups).value.Values).value
  }

  /// The first half of GetDuplicatesFound: the duplicates found tagged,
  /// then grouped by blob, unless a file the index does not know stops the
  /// tagging.
  method ClassifyDuplicatesFound(found: seq<FileInfo>, isolated: map<DataLocation, FsEntity>,
                                 controller: DC.DataControllerSimple)
    returns (r: Result<seq<SameContentFilesInfo>>)
    requires forall f :: f in found ==> f.Valid()
    modifies set f | f in found
    ensures r.Ok? <==> FirstUnregistered(found, isolated, controller.files) == |found|
    ensures r.Err? ==> r.error == ArgumentException
    ensures r.Ok? ==> |r.value| == |BlobGroups(found)|
    ensures r.Ok? ==> forall j :: 0 <= j < |r.value| ==> fresh(r.value[j]) && Mirrors(r.value[j], BlobGroups(found)[j])
    ensures r.Ok? ==> forall f :: f in found ==> f.sort == ExpectedSort(f, isolated) && f.Valid()
  {
    var tagged := SetDuplicateSortToFileInfo(found, isolated, controller);
    if tagged.Fail? {
      return Err(tagged.error);
    }
    forall f | f in found
      ensures f.sort == ExpectedSort(f, isolated)
    {
      var i :| 0 <= i < |found| && found[i] == f;
    }
    var groups := GroupFilesWithSameContent(found);
    r := Ok(groups);
  }

  /// The second half of GetDuplicatesFound: the current files of the
  /// "isolated duplicates" directories, all tagged as isolated duplicates,
  /// grouped by blob.
  method ClassifyIsolatedFiles(current: seq<FileInfo>) returns (groups: seq<SameContentFilesInfo>)
    requires forall f :: f in current ==> f.Valid()
    modifies set f | f in current
    ensures |groups| == |BlobGroups(current)|
    ensures forall j :: 0 <= j < |groups| ==> fresh(groups[j]) && Mirrors(groups[j], BlobGroups(current)[j])
    ensures forall f :: f in current ==> f.sort == IsolatedDuplicate && f.Valid()
  {
    SetIsolatedDuplicateSortToFileInfo(current);
    groups := GroupFilesWithSameContent(current);
  }

  /// GetDuplicatesFound: tags the duplicates found by whether they lie in
  /// the "isolated duplicates" directory of their location, groups them by
  /// blob, tags every current file of those directories as an isolated
  /// duplicate and groups them too, and reports the union of the two
  /// groupings. The groupings are returned as ghost results so that the
  /// lemmas on FilesToReport apply to the report.
  method GetDuplicatesFound(dataLocations: Option<seq<DataLocation>>, controller: DC.DataControllerSimple,
                            lookups: Lookups, queries: Queries, ghost known: set<FileInfo>)
    returns (r: Result<ProcessorReport>, ghost duplicates: seq<SameContentFilesInfo>,
             ghost isolatedDuplicates: seq<SameContentFilesInfo>)
    requires dataLocations.Some? ==> QueriesWithin(queries, dataLocations.value, known)
    modifies known
    ensures r.Ok? <==> FoundOutcome(dataLocations, controller.directories, controller.files, lookups, queries).Pass?
    ensures r.Err? ==> r.error == FoundOutcome(dataLocations, controller.directories, controller.files, lookups, queries).error
    ensures r.Ok? ==> fresh(r.value) && r.value.changes == [] && r.value.dataLocations == dataLocations.value
    ensures r.Ok? ==> r.value.groups == FilesToReport(duplicates, isolatedDuplicates)
    ensures r.Ok? ==> MirrorsAll(duplicates, queries.getDuplicates(dataLocations.value).value)
    ensures r.Ok? ==> MirrorsAll(isolatedDuplicates, IsolatedFiles(dataLocations.value, controller.directories, lookups, queries))
    ensures r.Ok? ==>
      var current := IsolatedFiles(dataLocations.value, controller.directories, lookups, queries);
      forall f :: f in current ==> f.sort == IsolatedDuplicate
    ensures r.Ok? ==>
      var found := queries.getDuplicates(dataLocations.value).value;
      var isolated := IsolatedDirectories(dataLocations.value, controller.directories, lookups).value;
      var current := IsolatedFiles(dataLocations.value, controller.directories, lookups, queries);
      forall f :: f in found && f !in current ==> f.sort == ExpectedSort(f, isolated)
  {
    duplicates, isolatedDuplicates := [], [];
    if dataLocations.None? || |dataLocations.value| == 0 {
      return Err(ArgumentNullException), duplicates, isolatedDuplicates;
    }
    var locations := dataLocations.value;
    var duplicatesFound := queries.getDuplicates(locations);
    if duplicatesFound.Err? {
      return Err(duplicatesFound.error), duplicates, isolatedDuplicates;
    }
    var directoriesForIsolatedDuplicates := GetDirectoriesForIsolatedDuplicates(controller, locations, lookups);
    if directoriesForIsolatedDuplicates.Err? {
      return Err(directoriesForIsolatedDuplicates.error), duplicates, isolatedDuplicates;
    }
    var isolated := directoriesForIsolatedDuplicates.value;
    var existingDirectoriesForIsolatedDuplicates := isolated.Values;
    var found := duplicatesFound.value;
    var tagged := ClassifyDuplicatesFound(found, isolated, controller);
    if tagged.Err? {
      return Err(tagged.error), duplicates, isolatedDuplicates;
    }
    var duplicateGroups := tagged.value;
    var filesFromIsolatedDuplicatesFolders := queries.getDirectoryCurrentFiles(existingDirectoriesForIsolatedDuplicates);
    if filesFromIsolatedDuplicatesFolders.Err? {
      return Err(filesFromIsolatedDuplicatesFolders.error), duplicates, isolatedDuplicates;
    }
    var current := filesFromIsolatedDuplicatesFolders.value;
    assert forall f :: f in current ==> f in known;
    forall f | f in current
      ensures f.Valid()
    {
      assert old(f.Valid());
    }
    var isolatedGroups := ClassifyIsolatedFiles(current);
    assert current == IsolatedFiles(locations, controller.directories, lookups, queries);
    var filesToReport := GetFilesToReport(duplicateGroups, isolatedGroups);
    var report := new ProcessorReport(filesToReport, locations);
    r, duplicates, isolatedDuplicates := Ok(report), duplicateGroups, isolatedGroups;
  }

  /// A file's blob is the blob of one of the groups that mirror its files.
  lemma {:induction false} MirroredBlob(groups: seq<SameContentFilesInfo>, files: seq<FileInfo>, f: FileInfo)
    requires MirrorsAll(groups, files) && f in files
    ensures f.blob in Blobs(groups)
  {
    BlobGroupOfFile(files, f);
    var e := Entry(f.blob, Distinct(Select(BlobPairs(files), f.blob)));
    var j :| 0 <= j < |BlobGroups(files)| && BlobGroups(files)[j] == e;
    assert Blobs(groups)[j] == f.blob;
  }

  /// The report of GetDuplicatesFound classifies every blob once: no two
  /// reported groups share a blob, every file found and every file of the
  /// "isolated duplicates" directories has its blob reported, and a group
  /// of those directories is reported only for a blob no file found
  /// carries.
  lemma {:induction false} ReportedBlobs(found: seq<FileInfo>, current: seq<FileInfo>,
                                         duplicates: seq<SameContentFilesInfo>, isolatedDuplicates: seq<SameContentFilesInfo>)
    requires MirrorsAll(duplicates, found) && MirrorsAll(isolatedDuplicates, current)
    ensures DistinctBlobs(FilesToReport(duplicates, isolatedDuplicates))
    ensures forall f :: f in found ==> f.blob in Blobs(FilesToReport(duplicates, isolatedDuplicates))
    ensures forall f :: f in current ==> f.blob in Blobs(FilesToReport(duplicates, isolatedDuplicates))
    ensures forall g :: g in FilesToReport(duplicates, isolatedDuplicates) ==>
      g in duplicates || (g in isolatedDuplicates && forall f :: f in found ==> f.blob != g.blob)
  {
    var r := FilesToReport(duplicates, isolatedDuplicates);
    FilesToReportOrigin(duplicates, isolatedDuplicates);
    FilesToReportCover(duplicates, isolatedDuplicates);
    forall f | f in found
      ensures f.blob in Blobs(r)
    {
      MirroredBlob(duplicates, found, f);
      var j :| 0 <= j < |duplicates| && Blobs(duplicates)[j] == f.blob;
      assert duplicates[j] in duplicates;
    }
    forall f | f in current
      ensures f.blob in Blobs(r)
    {
      MirroredBlob(isolatedDuplicates, current, f);
      var j :| 0 <= j < |isolatedDuplicates| && Blobs(isolatedDuplicates)[j] == f.blob;
      assert isolatedDuplicates[j] in isolatedDuplicates;
    }
    forall g, f | g in r && g !in duplicates && f in found
      ensures f.blob != g.blob
    {
      MirroredBlob(duplicates, found, f);
    }
  }
}
