/// DataControllerSimple: the in-memory index of files, directories, data
/// locations, inspections, file states and blobs, and the queries the
/// duplicates processor runs over it.
module DataController {
  import opened DotNet
  import opened BlobInfos
  import opened FsEntities
  import opened DataLocations
  import opened Inspections
  import opened FileStates
  import opened Grouping

  /// A directory as the scanner returns it: the directory, its subdirectories
  /// and its files.
  datatype DirectoryTree = DirectoryTree(directory: FsEntity, subDirectories: seq<DirectoryTree>, files: seq<FileEntity>)

  /// Every directory of a tree.
  function TreeDirectories(t: DirectoryTree): set<FsEntity>
    decreases t, 1
  {
    {t.directory} + ForestDirectories(t.subDirectories)
  }

  /// Every directory of a sequence of trees.
  function ForestDirectories(ts: seq<DirectoryTree>): set<FsEntity>
    decreases ts, 0
  {
    if ts == [] then {} else ForestDirectories(ts[..|ts| - 1]) + TreeDirectories(ts[|ts| - 1])
  }

  /// Every file of a tree.
  function TreeFiles(t: DirectoryTree): set<FileEntity>
    decreases t, 1
  {
    ForestFiles(t.subDirectories) + set f | f in t.files
  }

  /// Every file of a sequence of trees.
  function ForestFiles(ts: seq<DirectoryTree>): set<FileEntity>
    decreases ts, 0
  {
    if ts == [] then {} else ForestFiles(ts[..|ts| - 1]) + TreeFiles(ts[|ts| - 1])
  }

  /// The root among `roots` nearest to `d`: `d` itself or its closest ancestor.
  function NearestRoot(d: FsEntity, roots: set<FsEntity>): (r: Option<FsEntity>)
    decreases d
    ensures r.Some? ==> r.value in roots && IsAncestorOrSelf(r.value, d)
    ensures r.Some? ==> forall a :: a in roots && IsAncestorOrSelf(a, d) ==> IsAncestorOrSelf(a, r.value)
    ensures r.None? ==> forall a :: a in roots ==> !IsAncestorOrSelf(a, d)
  {
    if d in roots then Some(d)
    else if d.parent.None? then None
    else NearestRoot(d.parent.value, roots)
  }

  /// The dictionary from root directory to data location that
  /// GetDataLocations builds with Dictionary.Add, location by location: a
  /// location without a root throws ArgumentNullException, a second location
  /// with the same root throws ArgumentException.
  function RootIndex(locations: seq<DataLocation>): Result<map<FsEntity, DataLocation>> {
    if locations == [] then Ok(map[])
    else
      var last := locations[|locations| - 1];
      match RootIndex(locations[..|locations| - 1])
      case Err(e) => Err(e)
      case Ok(index) =>
        if last.directory.None? then Err(ArgumentNullException)
        else if last.directory.value in index then Err(ArgumentException)
        else Ok(index[last.directory.value := last])
  }

  /// Every location has a root and no two locations share one.
  predicate DistinctRoots(locations: seq<DataLocation>) {
    (forall i :: 0 <= i < |locations| ==> locations[i].directory.Some?) &&
    (forall i, j :: 0 <= i < j < |locations| ==> locations[i].directory != locations[j].directory)
  }

  /// The root index exists exactly when the roots are present and distinct;
  /// it then maps each root to its location.
  lemma {:induction false} RootIndexContents(locations: seq<DataLocation>)
    ensures RootIndex(locations).Ok? <==> DistinctRoots(locations)
    ensures RootIndex(locations).Ok? ==>
      RootIndex(locations).value.Keys == set i | 0 <= i < |locations| :: locations[i].directory.value
    ensures RootIndex(locations).Ok? ==>
      forall i :: 0 <= i < |locations| ==> RootIndex(locations).value[locations[i].directory.value] == locations[i]
  {
    if locations != [] {
      var init := locations[..|locations| - 1];
      RootIndexContents(init);
      if RootIndex(init).Ok? && DistinctRoots(init) {
        var last := locations[|locations| - 1];
        if last.directory.Some? && last.directory.value in RootIndex(init).value {
          var i :| 0 <= i < |init| && init[i].directory.value == last.directory.value;
          assert locations[i].directory == last.directory;
        }
      }
    }
  }

  class DataControllerSimple {
    var files: set<FileEntity>
    var directories: set<FsEntity>
    var dataLocations: seq<DataLocation>
    var inspections: seq<Inspection>
    var fileStates: seq<FileState>
    var blobInfos: set<BlobInfo>

    /// The constructor: six empty collections.
    constructor ()
      ensures files == {} && directories == {} && dataLocations == [] && inspections == []
      ensures fileStates == [] && blobInfos == {}
    {
      files := {};
      directories := {};
      dataLocations := [];
      inspections := [];
      fileStates := [];
      blobInfos := {};
    }

    /// GetFilesOfDirectory: the registered files whose parent the directory
    /// Equals. That comparison throws NullReferenceException for a file whose
    /// parent's chain has the directory's names and goes on above the
    /// directory's root; otherwise the files are those lying directly in the
    /// directory. The flag for subdirectories is not used.
    function GetFilesOfDirectory(directory: FsEntity, includeSubDirectories: bool): (r: Result<set<FileEntity>>)
      reads this
      ensures r.Err? <==> exists f :: f in files && ShorterWithSameNames(directory, f.parent.value)
      ensures r.Err? ==> r.error == NullReferenceException
      ensures r.Ok? ==> forall f :: f in r.value <==> f in files && IsAncestor(directory, f) && Depth(f) == Depth(directory) + 1
    {
      assert forall f :: f in files ==>
        (FsEntities.Equals(directory, Instance(f.parent.value)).Err? <==> ShorterWithSameNames(directory, f.parent.value)) by {
        forall f | f in files
          ensures FsEntities.Equals(directory, Instance(f.parent.value)).Err? <==> ShorterWithSameNames(directory, f.parent.value)
        {
          EqualsThrowsIff(directory, f.parent.value);
        }
      }
      if exists f :: f in files && FsEntities.Equals(directory, Instance(f.parent.value)).Err? then Err(NullReferenceException)
      else
        var found := set f | f in files && FsEntities.Equals(directory, Instance(f.parent.value)) == Ok(true);
        assert forall f :: f in found <==> f in files && IsAncestor(directory, f) && Depth(f) == Depth(directory) + 1 by {
          forall f | f in files
            ensures FsEntities.Equals(directory, Instance(f.parent.value)) == Ok(true) <==> IsAncestor(directory, f) && Depth(f) == Depth(directory) + 1
          {
            EqualsIsStructural(directory, f.parent.value);
            if IsAncestor(directory, f) && Depth(f) == Depth(directory) + 1 && f.parent.value != directory {
              AncestorIsShallower(directory, f.parent.value);
            }
          }
        }
        Ok(found)
    }

    /// AddFile: HashSet.Add, which keeps an equal entry already present.
    method AddFile(file: FileEntity)
      modifies this
      ensures files == old(files) + {file}
      ensures directories == old(directories) && dataLocations == old(dataLocations) && inspections == old(inspections)
      ensures fileStates == old(fileStates) && blobInfos == old(blobInfos)
    {
      files := files + {file};
    }

    /// AddDirectory: registers the directory, then every subdirectory tree
    /// recursively, then the directory's files.
    method AddDirectory(tree: DirectoryTree)
      modifies this
      decreases tree
      ensures directories == old(directories) + TreeDirectories(tree)
      ensures files == old(files) + TreeFiles(tree)
      ensures dataLocations == old(dataLocations) && inspections == old(inspections)
      ensures fileStates == old(fileStates) && blobInfos == old(blobInfos)
    {
      if tree.directory !in directories {
        directories := directories + {tree.directory};
      }
      for i := 0 to |tree.subDirectories|
        invariant directories == old(directories) + {tree.directory} + ForestDirectories(tree.subDirectories[..i])
        invariant files == old(files) + ForestFiles(tree.subDirectories[..i])
        invariant dataLocations == old(dataLocations) && inspections == old(inspections)
        invariant fileStates == old(fileStates) && blobInfos == old(blobInfos)
      {
        assert tree.subDirectories[..i + 1][..i] == tree.subDirectories[..i];
        AddDirectory(tree.subDirectories[i]);
      }
      assert tree.subDirectories[..|tree.subDirectories|] == tree.subDirectories;
      for i := 0 to |tree.files|
        invariant directories == old(directories) + TreeDirectories(tree)
        invariant files == old(files) + ForestFiles(tree.subDirectories) + set f | f in tree.files[..i]
        invariant dataLocations == old(dataLocations) && inspections == old(inspections)
        invariant fileStates == old(fileStates) && blobInfos == old(blobInfos)
      {
        assert tree.files[..i + 1] == tree.files[..i] + [tree.files[i]];
        AddFile(tree.files[i]);
      }
      assert tree.files[..|tree.files|] == tree.files;
    }

    /// AddDataLocation: HashSet.Add of a reference.
    method AddDataLocation(dataLocation: DataLocation)
      modifies this
      ensures dataLocations == if dataLocation in old(dataLocations) then old(dataLocations) else old(dataLocations) + [dataLocation]
      ensures files == old(files) && directories == old(directories) && inspections == old(inspections)
      ensures fileStates == old(fileStates) && blobInfos == old(blobInfos)
    {
      if dataLocation !in dataLocations {
        dataLocations := dataLocations + [dataLocation];
      }
    }

    /// GetDataLocations(directories): the registered locations whose root is
    /// one of the directories.
    method GetDataLocationsOf(directories: seq<FsEntity>) returns (found: set<DataLocation>)
      ensures forall l :: l in found <==> l in dataLocations && l.directory.Some? && l.directory.value in directories
    {
      var directoriesSet := set d | d in directories;
      found := {};
      for i := 0 to |dataLocations|
        invariant forall l :: l in found <==> l in dataLocations[..i] && l.directory.Some? && l.directory.value in directories
      {
        var location := dataLocations[i];
        if location.directory.Some? && location.directory.value in directoriesSet {
          found := found + {location};
        }
        assert dataLocations[..i + 1] == dataLocations[..i] + [location];
      }
      assert dataLocations[..|dataLocations|] == dataLocations;
    }

    /// GetDataLocations(directories, includeUpperDirectories). Without upper
    /// directories it is the overload above. With them it indexes the
    /// locations by root, which fails as RootIndex says, and returns for each
    /// directory the location of its nearest root, if it has one.
    method GetDataLocations(directories: seq<FsEntity>, includeUpperDirectories: bool) returns (r: Result<set<DataLocation>>)
      ensures !includeUpperDirectories ==> (r.Ok? &&
        forall l :: l in r.value <==> l in dataLocations && l.directory.Some? && l.directory.value in directories)
      ensures includeUpperDirectories && RootIndex(dataLocations).Err? ==> r == Err(RootIndex(dataLocations).error)
      ensures includeUpperDirectories && RootIndex(dataLocations).Ok? ==>
        r == Ok(UpperLocations(directories, RootIndex(dataLocations).value))
    {
      if !includeUpperDirectories {
        var found := GetDataLocationsOf(directories);
        return Ok(found);
      }
      var rootDataLocationDirectories: map<FsEntity, DataLocation> := map[];
      for i := 0 to |dataLocations|
        invariant RootIndex(dataLocations[..i]) == Ok(rootDataLocationDirectories)
      {
        var location := dataLocations[i];
        assert dataLocations[..i + 1][..i] == dataLocations[..i];
        if location.directory.None? {
          assert RootIndex(dataLocations[..i + 1]) == Err(ArgumentNullException);
          RootIndexPrefixError(dataLocations, i + 1);
          return Err(ArgumentNullException);
        }
        if location.directory.value in rootDataLocationDirectories {
          assert RootIndex(dataLocations[..i + 1]) == Err(ArgumentException);
          RootIndexPrefixError(dataLocations, i + 1);
          return Err(ArgumentException);
        }
        rootDataLocationDirectories := rootDataLocationDirectories[location.directory.value := location];
      }
      assert dataLocations[..|dataLocations|] == dataLocations;
      var roots := rootDataLocationDirectories.Keys;
      var found: set<DataLocation> := {};
      for i := 0 to |directories|
        invariant forall l :: l in found <==> exists d :: d in directories[..i] && NearestRoot(d, roots).Some? &&
                                                    rootDataLocationDirectories[NearestRoot(d, roots).value] == l
      {
        var directory := directories[i];
        var directoryToCheck: Option<FsEntity> := Some(directory);
        while directoryToCheck.Some? && directoryToCheck.value !in rootDataLocationDirectories
          invariant directoryToCheck.Some? ==> NearestRoot(directoryToCheck.value, roots) == NearestRoot(directory, roots)
          invariant directoryToCheck.None? ==> NearestRoot(directory, roots).None?
          decreases if directoryToCheck.Some? then Depth(directoryToCheck.value) + 1 else 0
        {
          directoryToCheck := directoryToCheck.value.parent;
        }
        assert directories[..i + 1] == directories[..i] + [directory];
        if directoryToCheck.Some? {
          found := found + {rootDataLocationDirectories[directoryToCheck.value]};
        }
      }
      assert directories[..|directories|] == directories;
      r := Ok(found);
      assert found == UpperLocations(directories, rootDataLocationDirectories);
    }

    /// AddInspection: HashSet.Add of a reference.
    method AddInspection(inspection: Inspection)
      modifies this
      ensures inspections == if inspection in old(inspections) then old(inspections) else old(inspections) + [inspection]
      ensures files == old(files) && directories == old(directories) && dataLocations == old(dataLocations)
      ensures fileStates == old(fileStates) && blobInfos == old(blobInfos)
    {
      if inspection !in inspections {
        inspections := inspections + [inspection];
      }
    }

    /// UpdateInspection: throws ArgumentException for an inspection that was
    /// never added, and otherwise does nothing.
    method UpdateInspection(inspection: Inspection) returns (outcome: Outcome)
      ensures outcome == Pass <==> inspection in inspections
      ensures outcome.Fail? ==> outcome.error == ArgumentException
    {
      if inspection in inspections {
        outcome := Pass;
      } else {
        outcome := Fail(ArgumentException);
      }
    }

    /// GetLastInspections: for each requested location that has inspections,
    /// the one with the latest start met first in registration order.
    method GetLastInspections(dataLocations: set<DataLocation>) returns (r: set<Inspection>)
      ensures r == LastInspections(inspections, dataLocations).Values
    {
      var lastInspections: map<DataLocation, Inspection> := map[];
      for i := 0 to |inspections|
        invariant lastInspections == LastInspections(inspections[..i], dataLocations)
      {
        var inspection := inspections[i];
        var dataLocation := inspection.dataLocation;
        assert inspections[..i + 1][..i] == inspections[..i];
        if dataLocation in dataLocations &&
           (dataLocation !in lastInspections || inspection.start > lastInspections[dataLocation].start) {
          lastInspections := lastInspections[dataLocation := inspection];
        }
      }
      assert inspections[..|inspections|] == inspections;
      r := lastInspections.Values;
    }

    /// AddFileState: HashSet.Add of a reference.
    method AddFileState(fileState: FileState)
      modifies this
      ensures fileStates == if fileState in old(fileStates) then old(fileStates) else old(fileStates) + [fileState]
      ensures files == old(files) && directories == old(directories) && dataLocations == old(dataLocations)
      ensures inspections == old(inspections) && blobInfos == old(blobInfos)
    {
      if fileState !in fileStates {
        fileStates := fileStates + [fileState];
      }
    }

    /// AddBlobInfo: adds the blob unless an equal one is registered.
    method AddBlobInfo(blobInfo: BlobInfo)
      modifies this
      ensures blobInfos == old(blobInfos) + {blobInfo}
      ensures files == old(files) && directories == old(directories) && dataLocations == old(dataLocations)
      ensures inspections == old(inspections) && fileStates == old(fileStates)
    {
      if blobInfo !in blobInfos {
        blobInfos := blobInfos + {blobInfo};
      }
    }

    /// The file-state loop shared by GetDuplicatesByHash (every directory,
    /// HashSet groups) and GetDirectoryCurrentFiles (the given directories,
    /// List groups): states of the given inspections, optionally only those
    /// whose file lies directly in one of the directories, grouped by blob.
    /// A selected state without a blob throws.
    method GroupCurrentStates(last: set<Inspection>, directoriesToProcess: Option<set<FsEntity>>, distinct: bool)
      returns (r: Result<seq<Entry<BlobInfo, FileEntity>>>)
      ensures var input := CurrentPairs(Views(fileStates), last, directoriesToProcess);
        r == if input.Err? then Err(input.error) else Ok(GroupBy(input.value, distinct))
    {
      ghost var views := Views(fileStates);
      ghost var pairs: seq<(BlobInfo, FileEntity)> := [];
      var blobGroups: seq<Entry<BlobInfo, FileEntity>> := [];
      for i := 0 to |fileStates|
        invariant CurrentPairs(views[..i], last, directoriesToProcess) == Ok(pairs)
        invariant blobGroups == GroupBy(pairs, distinct)
      {
        var fileState := fileStates[i];
        assert views[..i + 1][..i] == views[..i];
        if fileState.inspection !in last {
          continue;
        }
        var file := fileState.file;
        if directoriesToProcess.Some? && file.parent.value !in directoriesToProcess.value {
          continue;
        }
        if fileState.blobInfo.None? {
          CurrentPairsPrefixError(views, i + 1, last, directoriesToProcess);
          assert views[..|views|] == views;
          return Err(GeneralException);
        }
        var blobInfo := fileState.blobInfo.value;
        assert GroupBy(pairs + [(blobInfo, file)], distinct) == Add(GroupBy(pairs, distinct), blobInfo, file, distinct) by {
          assert (pairs + [(blobInfo, file)])[..|pairs|] == pairs;
        }
        blobGroups := Add(blobGroups, blobInfo, file, distinct);
        pairs := pairs + [(blobInfo, file)];
      }
      assert views[..|views|] == views;
      r := Ok(blobGroups);
    }

    /// GetDuplicatesByHash: the files of the last inspections of the
    /// locations, grouped by blob with each file once, keeping only the blobs
    /// shared by more than one file; a state without a blob throws.
    method GetDuplicatesByHash(dataLocations: set<DataLocation>) returns (r: Result<seq<Entry<BlobInfo, FileEntity>>>)
      ensures var input := CurrentPairs(Views(fileStates), LastInspections(inspections, dataLocations).Values, None);
        r == if input.Err? then Err(input.error) else Ok(Shared(GroupBy(input.value, true)))
    {
      var inspectionsSet := GetLastInspections(dataLocations);
      var blobGroups := GroupCurrentStates(inspectionsSet, None, true);
      if blobGroups.Err? {
        return Err(blobGroups.error);
      }
      var result := KeepShared(blobGroups.value);
      r := Ok(result);
    }

    /// GetSubDirectories: the registered directories whose parent is one of
    /// the given directories, and, when asked, recursively theirs. The
    /// inspections are not used.
    method GetSubDirectories(inspections: set<Inspection>, parentDirectories: set<FsEntity>, doRecursively: bool)
      returns (r: set<FsEntity>)
      ensures !doRecursively ==> forall d :: d in r <==> d in directories && d.parent.Some? && d.parent.value in parentDirectories
      ensures doRecursively ==> forall d :: d in r <==> Reaches(d, parentDirectories, directories)
    {
      r := SubDirectoriesFrom(inspections, parentDirectories, doRecursively, 0);
    }

    /// GetSubDirectories with a ghost lower bound on the depth of its
    /// directories, which grows by one with every level of recursion.
    method SubDirectoriesFrom(inspections: set<Inspection>, parentDirectories: set<FsEntity>, doRecursively: bool, ghost level: nat)
      returns (r: set<FsEntity>)
      requires forall d :: d in parentDirectories ==> Depth(d) >= level
      ensures !doRecursively ==> forall d :: d in r <==> d in directories && d.parent.Some? && d.parent.value in parentDirectories
      ensures doRecursively ==> forall d :: d in r <==> Reaches(d, parentDirectories, directories)
      decreases MaxDepth(directories) + 1 - level
    {
      var subDirectories: set<FsEntity> := {};
      var unvisited := directories;
      while unvisited != {}
        invariant unvisited <= directories
        invariant forall d :: d in subDirectories <==>
          d in directories - unvisited && d.parent.Some? && d.parent.value in parentDirectories
        decreases |unvisited|
      {
        var directoryFromDb :| directoryFromDb in unvisited;
        if directoryFromDb.parent.Some? && directoryFromDb.parent.value in parentDirectories {
          subDirectories := subDirectories + {directoryFromDb};
        }
        unvisited := unvisited - {directoryFromDb};
      }
      assert subDirectories == set c | c in directories && c.parent.Some? && c.parent.value in parentDirectories;
      r := subDirectories;
      if doRecursively && subDirectories != {} {
        var some :| some in subDirectories;
        assert Depth(some) <= MaxDepth(directories);
        var moreSubDirectories := SubDirectoriesFrom(inspections, subDirectories, true, level + 1);
        r := subDirectories + moreSubDirectories;
        forall d ensures Reaches(d, parentDirectories, directories) <==> d in subDirectories || Reaches(d, subDirectories, directories) {
          ReachesStep(d, parentDirectories, directories);
        }
      } else if doRecursively {
        forall d ensures Reaches(d, parentDirectories, directories) <==> d in subDirectories {
          ReachesStep(d, parentDirectories, directories);
          NothingReachesEmpty(d, directories);
        }
      }
    }

    /// GetDirectoryCurrentFiles: the files of the last inspections of the
    /// locations that hold the directories, restricted to files lying
    /// directly in the directories or, when asked, in their registered
    /// subdirectories, grouped by blob as Lists with repeats then removed.
    /// Failures of GetDataLocations and states without a blob throw.
    method GetDirectoryCurrentFiles(directories: seq<FsEntity>, includeSubDirectories: bool)
      returns (r: Result<seq<Entry<BlobInfo, FileEntity>>>)
      ensures RootIndex(dataLocations).Err? ==> r == Err(RootIndex(dataLocations).error)
      ensures RootIndex(dataLocations).Ok? ==>
        var last := LastInspections(inspections, UpperLocations(directories, RootIndex(dataLocations).value)).Values;
        var input := CurrentPairs(Views(fileStates), last, Some(DirectoriesToProcess(directories, includeSubDirectories, this.directories)));
        r == if input.Err? then Err(input.error) else Ok(GroupBy(input.value, true))
    {
      var dataLocations := GetDataLocations(directories, true);
      if dataLocations.Err? {
        return Err(dataLocations.error);
      }
      var inspectionsSet := GetLastInspections(dataLocations.value);
      var directoriesToProcess := set d | d in directories;
      if includeSubDirectories {
        var subDirectories := GetSubDirectories(inspectionsSet, directoriesToProcess, includeSubDirectories);
        directoriesToProcess := directoriesToProcess + subDirectories;
      }
      assert directoriesToProcess == DirectoriesToProcess(directories, includeSubDirectories, this.directories);
      var blobGroups := GroupCurrentStates(inspectionsSet, Some(directoriesToProcess), false);
      if blobGroups.Err? {
        return Err(blobGroups.error);
      }
      var result := DistinctGroups(blobGroups.value);
      ghost var input := CurrentPairs(Views(fileStates), inspectionsSet, Some(directoriesToProcess));
      ListThenDistinct(input.value);
      r := Ok(result);
    }

    /// The last loop of GetDirectoryCurrentFiles: each group's List with
    /// repeats removed.
    static method DistinctGroups(groups: seq<Entry<BlobInfo, FileEntity>>) returns (result: seq<Entry<BlobInfo, FileEntity>>)
      ensures result == DistinctValues(groups)
    {
      result := [];
      for i := 0 to |groups|
        invariant result == DistinctValues(groups[..i])
      {
        DistinctValuesSnoc(groups[..i], groups[i]);
        assert groups[..i + 1] == groups[..i] + [groups[i]];
        var duplicates := DistinctFiles(groups[i].values);
        result := result + [Entry(groups[i].key, duplicates)];
      }
      assert groups[..|groups|] == groups;
    }

    /// Enumerable.Distinct over a List of files: the first occurrence of
    /// each, in order.
    static method DistinctFiles(files: seq<FileEntity>) returns (result: seq<FileEntity>)
      ensures result == Distinct(files)
    {
      result := [];
      for i := 0 to |files|
        invariant result == Distinct(files[..i])
      {
        assert files[..i + 1][..i] == files[..i];
        if files[i] !in result {
          result := result + [files[i]];
        }
      }
      assert files[..|files|] == files;
    }

    /// IsFileFromDirectory, as the rest of this model uses it: throws
    /// ArgumentException for an unregistered file, and otherwise tells
    /// whether the directory is an ancestor of the file, by walking up the
    /// file's parent chain.
    method IsFileFromDirectory(directory: FsEntity, file: FileEntity) returns (r: Result<bool>)
      ensures file !in files ==> r == Err(ArgumentException)
      ensures file in files ==> r == Ok(IsAncestor(directory, file))
    {
      if file !in files {
        return Err(ArgumentException);
      }
      var current := file.parent;
      while current.Some? && current.value != directory
        invariant current.Some? ==> (IsAncestor(directory, file) <==> IsAncestorOrSelf(directory, current.value))
        invariant current.None? ==> !IsAncestor(directory, file)
        decreases if current.Some? then Depth(current.value) + 1 else 0
      {
        current := current.value.parent;
      }
      r := Ok(current.Some?);
    }

    /// IsFileFromDirectory as written: throws ArgumentException for an
    /// unregistered file, and otherwise compares the length of the relative
    /// path from the directory to the file with the file name's length plus
    /// one. The relative path is computed outside the model and may fail.
    function IsFileFromDirectoryAsWritten(directory: FsEntity, file: FileEntity,
                                          relativePath: (string, string) -> Result<string>): (r: Result<bool>)
      reads this
      ensures file !in files ==> r == Err(ArgumentException)
      ensures file in files && relativePath(PathOf(directory), PathOf(file)).Err? ==>
        r == Err(relativePath(PathOf(directory), PathOf(file)).error)
      ensures r == Ok(true) ==> (relativePath(PathOf(directory), PathOf(file)).Ok? &&
        |relativePath(PathOf(directory), PathOf(file)).value| > |file.name| + 1)
    {
      if file in files then
        match relativePath(PathOf(directory), PathOf(file))
        case Err(e) => Err(e)
        case Ok(path) => Ok(|path| > |file.name| + 1)
      else Err(ArgumentException)
    }
  }

  /// The second loop of GetDuplicatesByHash: the groups of more than one
  /// file, in order.
  method KeepShared(groups: seq<Entry<BlobInfo, FileEntity>>) returns (result: seq<Entry<BlobInfo, FileEntity>>)
    ensures result == Shared(groups)
  {
    result := [];
    for i := 0 to |groups|
      invariant result == Shared(groups[..i])
    {
      assert groups[..i + 1][..i] == groups[..i];
      if |groups[i].values| > 1 {
        result := result + [groups[i]];
      }
    }
    assert groups[..|groups|] == groups;
  }

  /// Once a prefix of the locations fails to index, the whole sequence fails
  /// with the same exception.
  lemma {:induction false} RootIndexPrefixError(locations: seq<DataLocation>, n: nat)
    requires n <= |locations| && RootIndex(locations[..n]).Err?
    ensures RootIndex(locations) == RootIndex(locations[..n])
    decreases |locations| - n
  {
    if n < |locations| {
      assert locations[..n + 1][..n] == locations[..n];
      RootIndexPrefixError(locations, n + 1);
    } else {
      assert locations[..n] == locations;
    }
  }

  /// The last inspection of each location, as GetLastInspections keeps them
  /// while it walks the inspections in order.
  function LastInspections(inspections: seq<Inspection>, dataLocations: set<DataLocation>): map<DataLocation, Inspection> {
    if inspections == [] then map[]
    else
      var last := LastInspections(inspections[..|inspections| - 1], dataLocations);
      var inspection := inspections[|inspections| - 1];
      var dataLocation := inspection.dataLocation;
      if dataLocation in dataLocations && (dataLocation !in last || inspection.start > last[dataLocation].start)
      then last[dataLocation := inspection]
      else last
  }

  /// The locations GetLastInspections keeps: exactly the requested ones that
  /// have an inspection.
  lemma {:induction false} LastInspectionsKeys(inspections: seq<Inspection>, dataLocations: set<DataLocation>, l: DataLocation)
    ensures l in LastInspections(inspections, dataLocations) <==>
      l in dataLocations && exists i :: 0 <= i < |inspections| && inspections[i].dataLocation == l
  {
    if inspections != [] {
      var init := inspections[..|inspections| - 1];
      LastInspectionsKeys(init, dataLocations, l);
      assert forall i :: 0 <= i < |init| ==> init[i] == inspections[i];
      if exists i :: 0 <= i < |inspections| && inspections[i].dataLocation == l {
        var i :| 0 <= i < |inspections| && inspections[i].dataLocation == l;
        if i < |init| {
          assert init[i].dataLocation == l;
        }
      }
    }
  }

  /// The inspection GetLastInspections keeps for a location: one of its own
  /// with the latest start, and of those the first in registration order.
  lemma {:induction false} LastInspectionIsLatest(inspections: seq<Inspection>, dataLocations: set<DataLocation>, l: DataLocation)
    requires l in LastInspections(inspections, dataLocations)
    ensures exists k :: (0 <= k < |inspections| && inspections[k] == LastInspections(inspections, dataLocations)[l] &&
      inspections[k].dataLocation == l &&
      (forall j :: 0 <= j < |inspections| && inspections[j].dataLocation == l ==> inspections[j].start <= inspections[k].start) &&
      (forall j :: 0 <= j < k && inspections[j].dataLocation == l ==> inspections[j].start < inspections[k].start))
  {
    var n := |inspections| - 1;
    var init := inspections[..n];
    var last := LastInspections(init, dataLocations);
    assert forall i :: 0 <= i < n ==> init[i] == inspections[i];
    var replaced := inspections[n].dataLocation in dataLocations &&
      (inspections[n].dataLocation !in last || inspections[n].start > last[inspections[n].dataLocation].start);
    assert LastInspections(inspections, dataLocations) == if replaced then last[inspections[n].dataLocation := inspections[n]] else last;
    if replaced && l == inspections[n].dataLocation {
      if l in last {
        LastInspectionIsLatest(init, dataLocations, l);
        var k :| 0 <= k < |init| && init[k] == last[l] && init[k].dataLocation == l &&
          (forall j :: 0 <= j < |init| && init[j].dataLocation == l ==> init[j].start <= init[k].start);
        assert forall j :: 0 <= j < n && inspections[j].dataLocation == l ==> inspections[j].start < inspections[n].start;
      } else {
        LastInspectionsKeys(init, dataLocations, l);
      }
      assert forall j :: 0 <= j < n && inspections[j].dataLocation == l ==> inspections[j].start < inspections[n].start;
      assert forall j :: 0 <= j < |inspections| && inspections[j].dataLocation == l ==> inspections[j].start <= inspections[n].start;
    } else {
      assert l in last;
      LastInspectionsKeys(init, dataLocations, l);
      LastInspectionIsLatest(init, dataLocations, l);
      var k :| 0 <= k < |init| && init[k] == last[l] && init[k].dataLocation == l &&
        (forall j :: 0 <= j < |init| && init[j].dataLocation == l ==> init[j].start <= init[k].start) &&
        (forall j :: 0 <= j < k && init[j].dataLocation == l ==> init[j].start < init[k].start);
      assert inspections[n].dataLocation == l ==> inspections[n].start <= last[l].start;
      assert forall j :: 0 <= j < |inspections| && inspections[j].dataLocation == l ==> inspections[j].start <= inspections[k].start;
    }
  }

  /// The locations GetDataLocations finds with upper directories: for each
  /// directory, the location of its nearest ancestor-or-self root.
  function UpperLocations(directories: seq<FsEntity>, index: map<FsEntity, DataLocation>): set<DataLocation> {
    set d | d in directories && NearestRoot(d, index.Keys).Some? :: index[NearestRoot(d, index.Keys).value]
  }

  /// What the grouping loops read from a file state.
  datatype StateView = StateView(inspection: Inspection, file: FileEntity, blob: Option<BlobInfo>)

  /// The file states as the grouping loops see them.
  function Views(states: seq<FileState>): (r: seq<StateView>)
    reads set s | s in states
    ensures |r| == |states|
    ensures forall i :: 0 <= i < |states| ==> r[i] == StateView(states[i].inspection, states[i].file, states[i].blobInfo)
  {
    if states == [] then []
    else
      var s := states[|states| - 1];
      Views(states[..|states| - 1]) + [StateView(s.inspection, s.file, s.blobInfo)]
  }

  /// A state is grouped when it belongs to one of the inspections and, when
  /// directories are given, its file lies directly in one of them.
  predicate Selected(v: StateView, last: set<Inspection>, directoriesToProcess: Option<set<FsEntity>>) {
    v.inspection in last && (directoriesToProcess.None? || v.file.parent.value in directoriesToProcess.value)
  }

  /// The blob/file pairs the grouping loops feed to their dictionary, state
  /// by state; the first selected state without a blob throws.
  function CurrentPairs(views: seq<StateView>, last: set<Inspection>, directoriesToProcess: Option<set<FsEntity>>)
    : Result<seq<(BlobInfo, FileEntity)>>
  {
    if views == [] then Ok([])
    else
      var v := views[|views| - 1];
      match CurrentPairs(views[..|views| - 1], last, directoriesToProcess)
      case Err(e) => Err(e)
      case Ok(pairs) =>
        if !Selected(v, last, directoriesToProcess) then Ok(pairs)
        else if v.blob.None? then Err(GeneralException)
        else Ok(pairs + [(v.blob.value, v.file)])
  }

  /// Once a prefix of the states throws, the whole loop throws the same.
  lemma {:induction false} CurrentPairsPrefixError(views: seq<StateView>, n: nat, last: set<Inspection>,
                                                   directoriesToProcess: Option<set<FsEntity>>)
    requires n <= |views| && CurrentPairs(views[..n], last, directoriesToProcess).Err?
    ensures CurrentPairs(views, last, directoriesToProcess) == CurrentPairs(views[..n], last, directoriesToProcess)
    decreases |views| - n
  {
    if n < |views| {
      assert views[..n + 1][..n] == views[..n];
      CurrentPairsPrefixError(views, n + 1, last, directoriesToProcess);
    } else {
      assert views[..n] == views;
    }
  }

  /// The grouping loops throw exactly when a selected state has no blob, and
  /// always with a general exception; otherwise they feed the dictionary
  /// exactly the blob and file of every selected state.
  lemma {:induction false} CurrentPairsMeaning(views: seq<StateView>, last: set<Inspection>,
                                               directoriesToProcess: Option<set<FsEntity>>)
    ensures CurrentPairs(views, last, directoriesToProcess).Err? <==>
      exists i :: 0 <= i < |views| && Selected(views[i], last, directoriesToProcess) && views[i].blob.None?
    ensures CurrentPairs(views, last, directoriesToProcess).Err? ==>
      CurrentPairs(views, last, directoriesToProcess).error == GeneralException
    ensures CurrentPairs(views, last, directoriesToProcess).Ok? ==> forall b, f ::
      (b, f) in CurrentPairs(views, last, directoriesToProcess).value <==>
      exists i :: 0 <= i < |views| && Selected(views[i], last, directoriesToProcess) && views[i].blob == Some(b) && views[i].file == f
  {
    if views != [] {
      var init := views[..|views| - 1];
      var v := views[|views| - 1];
      CurrentPairsMeaning(init, last, directoriesToProcess);
      assert forall i :: 0 <= i < |init| ==> init[i] == views[i];
      assert views == init + [v];
    }
  }

  /// The directories GetDirectoryCurrentFiles takes files from: the given
  /// ones and, when asked, every registered directory below them.
  function DirectoriesToProcess(directories: seq<FsEntity>, includeSubDirectories: bool, registered: set<FsEntity>): set<FsEntity> {
    (set d | d in directories) + if includeSubDirectories then set d | d in registered && Reaches(d, (set e | e in directories), registered) else {}
  }

  /// A directory is reached from a set when it is registered and its parent
  /// is in the set or is itself reached: the directories GetSubDirectories
  /// collects, level by level.
  predicate Reaches(d: FsEntity, parentDirectories: set<FsEntity>, registered: set<FsEntity>)
    decreases d
  {
    d in registered && d.parent.Some? && (d.parent.value in parentDirectories || Reaches(d.parent.value, parentDirectories, registered))
  }

  /// One level of GetSubDirectories: a directory reached from a set is a
  /// child of the set or is reached from those children.
  lemma {:induction false} ReachesStep(d: FsEntity, parentDirectories: set<FsEntity>, registered: set<FsEntity>)
    ensures Reaches(d, parentDirectories, registered) <==>
      (d in registered && d.parent.Some? && d.parent.value in parentDirectories) ||
      Reaches(d, (set c | c in registered && c.parent.Some? && c.parent.value in parentDirectories), registered)
    decreases d
  {
    if d.parent.Some? {
      ReachesStep(d.parent.value, parentDirectories, registered);
    }
  }

  /// Nothing is reached from no directories.
  lemma {:induction false} NothingReachesEmpty(d: FsEntity, registered: set<FsEntity>)
    ensures !Reaches(d, {}, registered)
    decreases d
  {
    if d.parent.Some? {
      NothingReachesEmpty(d.parent.value, registered);
    }
  }

  /// The depth of the deepest directory of a set.
  ghost function MaxDepth(s: set<FsEntity>): (m: nat)
    ensures forall d :: d in s ==> Depth(d) <= m
  {
    if s == {} then 0
    else
      var d :| d in s;
      var rest := MaxDepth(s - {d});
      if Depth(d) > rest then Depth(d) else rest
  }

  /// Appending an entry appends its deduplicated counterpart.
  lemma {:induction false} DistinctValuesSnoc(g: seq<Entry<BlobInfo, FileEntity>>, e: Entry<BlobInfo, FileEntity>)
    ensures DistinctValues(g + [e]) == DistinctValues(g) + [Entry(e.key, Distinct(e.values))]
  {
  }

  /// The relative path from a directory to a file directly inside it is
  /// just the file name, whose length is not greater than itself plus one:
  /// the length test says the file is not from the directory.
  lemma ChildFileIsNotFromDirectoryAsWritten(controller: DataControllerSimple, directory: FsEntity, name: string,
                                              relativePath: (string, string) -> Result<string>)
    requires FsEntity(name, Some(directory)) in controller.files
    requires relativePath(PathOf(directory), PathOf(FsEntity(name, Some(directory)))) == Ok(name)
    ensures controller.IsFileFromDirectoryAsWritten(directory, FsEntity(name, Some(directory)), relativePath) == Ok(false)
    ensures IsAncestor(directory, FsEntity(name, Some(directory)))
  {
  }

  /// Any file outside the directory, whose relative path climbs out with
  /// `..\` and then names at least the file, passes the length test as
  /// written: siblings, cousins and unrelated directories alike.
  lemma OutsideFileIsFromDirectoryAsWritten(controller: DataControllerSimple, directory: FsEntity, file: FileEntity,
                                             rest: string, relativePath: (string, string) -> Result<string>)
    requires file in controller.files
    requires relativePath(PathOf(directory), PathOf(file)) == Ok("..\\" + rest) && |rest| >= |file.name|
    ensures controller.IsFileFromDirectoryAsWritten(directory, file, relativePath) == Ok(true)
  {
  }

  /// A file of the parent directory is reached from the directory by
  /// "..\" and its name, which passes the length test although the
  /// directory is not its ancestor.
  lemma SiblingFileIsFromDirectoryAsWritten(controller: DataControllerSimple, parent: FsEntity, directoryName: string,
                                             name: string, relativePath: (string, string) -> Result<string>)
    requires FsEntity(name, Some(parent)) in controller.files
    requires relativePath(PathOf(FsEntity(directoryName, Some(parent))), PathOf(FsEntity(name, Some(parent)))) ==
             Ok("..\\" + name)
    ensures controller.IsFileFromDirectoryAsWritten(FsEntity(directoryName, Some(parent)), FsEntity(name, Some(parent)), relativePath) == Ok(true)
    ensures !IsAncestor(FsEntity(directoryName, Some(parent)), FsEntity(name, Some(parent)))
  {
    var directory := FsEntity(directoryName, Some(parent));
    if IsAncestor(directory, FsEntity(name, Some(parent))) {
      AncestorIsShallower(directory, parent);
    }
  }

  /// Each group the grouping loops return with HashSet semantics holds the
  /// files of the selected states carrying its blob, each file once.
  lemma CurrentGroupMeaning(views: seq<StateView>, last: set<Inspection>, directoriesToProcess: Option<set<FsEntity>>,
                            e: Entry<BlobInfo, FileEntity>)
    requires CurrentPairs(views, last, directoriesToProcess).Ok?
    requires e in GroupBy(CurrentPairs(views, last, directoriesToProcess).value, true)
    ensures e.values != []
    ensures forall i, j :: 0 <= i < j < |e.values| ==> e.values[i] != e.values[j]
    ensures forall f :: f in e.values <==>
      exists i :: 0 <= i < |views| && Selected(views[i], last, directoriesToProcess) && views[i].blob == Some(e.key) && views[i].file == f
  {
    var pairs := CurrentPairs(views, last, directoriesToProcess).value;
    HashSetEntry(pairs, e);
    CurrentPairsMeaning(views, last, directoriesToProcess);
  }

  /// A selected state has a blob, and the loops feed its blob and file.
  lemma {:induction false} SelectedPairFed(views: seq<StateView>, last: set<Inspection>,
                                           directoriesToProcess: Option<set<FsEntity>>, i: nat)
    requires CurrentPairs(views, last, directoriesToProcess).Ok?
    requires i < |views| && Selected(views[i], last, directoriesToProcess)
    ensures views[i].blob.Some?
    ensures (views[i].blob.value, views[i].file) in CurrentPairs(views, last, directoriesToProcess).value
    decreases |views|
  {
    var init := views[..|views| - 1];
    if i < |views| - 1 {
      assert init[i] == views[i];
      SelectedPairFed(init, last, directoriesToProcess, i);
    }
  }

  /// Every blob of a selected state has a group in the HashSet grouping.
  lemma CurrentGroupComplete(views: seq<StateView>, last: set<Inspection>, directoriesToProcess: Option<set<FsEntity>>, i: nat)
    requires CurrentPairs(views, last, directoriesToProcess).Ok?
    requires i < |views| && Selected(views[i], last, directoriesToProcess)
    ensures views[i].blob.Some?
    ensures Entry(views[i].blob.value, Distinct(Select(CurrentPairs(views, last, directoriesToProcess).value, views[i].blob.value)))
            in GroupBy(CurrentPairs(views, last, directoriesToProcess).value, true)
  {
    var pairs := CurrentPairs(views, last, directoriesToProcess).value;
    SelectedPairFed(views, last, directoriesToProcess, i);
    var b := views[i].blob.value;
    var k :| 0 <= k < |pairs| && pairs[k] == (b, views[i].file);
    assert PairKeys(pairs)[k] == b;
    GroupByEntries(pairs, true, Entry(b, Distinct(Select(pairs, b))));
  }

  /// GetDuplicatesByHash reports a blob exactly when two different files of
  /// the last inspections carry it.
  lemma DuplicatesByHashComplete(views: seq<StateView>, last: set<Inspection>, i: nat, j: nat)
    requires CurrentPairs(views, last, None).Ok?
    requires i < |views| && j < |views| && Selected(views[i], last, None) && Selected(views[j], last, None)
    requires views[i].blob == views[j].blob && views[i].file != views[j].file
    ensures views[i].blob.Some?
    ensures exists e :: e in Shared(GroupBy(CurrentPairs(views, last, None).value, true)) && e.key == views[i].blob.value
  {
    var pairs := CurrentPairs(views, last, None).value;
    CurrentGroupComplete(views, last, None, i);
    SelectedPairFed(views, last, None, i);
    SelectedPairFed(views, last, None, j);
    var b := views[i].blob.value;
    var e := Entry(b, Distinct(Select(pairs, b)));
    HashSetEntry(pairs, e);
    assert views[i].file in e.values && views[j].file in e.values;
    if |e.values| <= 1 {
      assert false;
    }
    var g := GroupBy(pairs, true);
    var k :| 0 <= k < |g| && g[k] == e;
  }
}
