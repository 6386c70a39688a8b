/// DuplicatesProcessor.MoveDuplicatesToSpecialFolder: each duplicate is
/// moved into the "isolated duplicates" folder of its data location, under
/// the same relative path its directory has in the location; the missing
/// directories of that path are registered on the way; and each file the
/// file system moved gets a new registered file, a new state and a new
/// FileInfo in the report.
module ProcessorMove {
  import opened DotNet
  import opened BlobInfos
  import opened FsEntities
  import opened DataLocations
  import opened Inspections
  import opened FileStates
  import opened Grouping
  import opened Duplicates
  import opened Processing
  import opened ProcessorActions
  import DC = DataController

  /// GetChainOfNestedDirectories: the (path, name) of each directory from
  /// a location's root down to a relative path, outermost first; never
  /// empty, since the path starts with the folder for duplicates.
  type Chain = c: seq<(string, string)> | c != [] witness [("", "")]

  /// The path calls the processor makes that lie outside the model: the
  /// Uri arithmetic at the end of GetRelativePath, and the chain of
  /// nested directories of a relative path.
  datatype PathHelpers = PathHelpers(
    uriRelativePath: (string, string) -> Result<string>,
    chainOfNestedDirectories: (DataLocation, string) -> Chain)

  // ---------------------------------------------------------------------
  // Relative paths
  // ---------------------------------------------------------------------

  /// The base of a relative path ends with the directory separator.
  function WithTrailingSeparator(path: string): (r: string)
    ensures |r| > 0 && r[|r| - 1] == DirectorySeparatorChar
    ensures path <= r && |r| <= |path| + 1
  {
    if |path| > 0 && path[|path| - 1] == DirectorySeparatorChar then path else path + [DirectorySeparatorChar]
  }

  /// FileSystemHelper.GetRelativePath: an empty base or an empty path
  /// throws; otherwise the Uri arithmetic decides, from the base with a
  /// trailing separator.
  function GetRelativePath(relativeTo: string, path: string, helpers: PathHelpers): Result<string> {
    if relativeTo == [] then Err(ArgumentNullException)
    else if path == [] then Err(ArgumentNullException)
    else helpers.uriRelativePath(WithTrailingSeparator(relativeTo), path)
  }

  /// Where the duplicates of one directory go: the directory's path
  /// relative to its location, inside the location's folder for
  /// duplicates.
  datatype DirectoryForIsolatedDuplicates = DirectoryForIsolatedDuplicates(dataLocation: DataLocation,
                                                                           originalRelativePath: string)
  {
    /// The path relative to the location: the folder for duplicates, then
    /// the original relative path.
    function RelativePath(): string {
      Combine(FolderNameForDuplicates, originalRelativePath)
    }

    /// The full path: the location's path, then the relative path.
    function FullPath(): string {
      Combine(dataLocation.path, RelativePath())
    }
  }

  // ---------------------------------------------------------------------
  // First loop: a destination per source directory
  // ---------------------------------------------------------------------

  function ParentOf(duplicate: FileInfo): FsEntity {
    duplicate.file.parent.value
  }

  /// The relative path of the directory of a duplicate within its location.
  function RelativePathOf(duplicate: FileInfo, helpers: PathHelpers): Result<string> {
    GetRelativePath(duplicate.dataLocation.path, PathOf(ParentOf(duplicate)), helpers)
  }

  /// No earlier duplicate lies in the same directory.
  predicate FirstOfItsDirectory(duplicates: seq<FileInfo>, i: int)
    requires 0 <= i < |duplicates|
  {
    forall j :: 0 <= j < i ==> ParentOf(duplicates[j]) != ParentOf(duplicates[i])
  }

  predicate DistinctPairKeys<K(==), V>(pairs: seq<(K, V)>) {
    forall i, j :: 0 <= i < j < |pairs| ==> pairs[i].0 != pairs[j].0
  }

  /// The dictionary isolatedDuplicatesDirectories, in insertion order: the
  /// first duplicate of each directory decides its entry, and the first
  /// relative path that cannot be computed throws.
  function IsolatedDuplicatesDirectories(duplicates: seq<FileInfo>, helpers: PathHelpers)
    : (r: Result<seq<(FsEntity, DirectoryForIsolatedDuplicates)>>)
    ensures r.Ok? ==> forall d :: d in duplicates ==> ParentOf(d) in PairKeys(r.value)
  {
    if duplicates == [] then Ok([])
    else
      var prev := IsolatedDuplicatesDirectories(duplicates[..|duplicates| - 1], helpers);
      var duplicate := duplicates[|duplicates| - 1];
      if prev.Err? || ParentOf(duplicate) in PairKeys(prev.value) then prev
      else match RelativePathOf(duplicate, helpers)
        case Err(e) => Err(e)
        case Ok(path) => Ok(prev.value + [(ParentOf(duplicate), DirectoryForIsolatedDuplicates(duplicate.dataLocation, path))])
  }

  /// Once a prefix throws, so does the whole sequence, with the same
  /// exception.
  lemma {:induction false} IsolatedDuplicatesDirectoriesErrorPersists(duplicates: seq<FileInfo>, n: nat, helpers: PathHelpers)
    requires n <= |duplicates|
    requires IsolatedDuplicatesDirectories(duplicates[..n], helpers).Err?
    ensures IsolatedDuplicatesDirectories(duplicates, helpers) == IsolatedDuplicatesDirectories(duplicates[..n], helpers)
    decreases |duplicates| - n
  {
    if n < |duplicates| {
      var longer := duplicates[..n + 1];
      assert longer[..|longer| - 1] == duplicates[..n];
      IsolatedDuplicatesDirectoriesErrorPersists(duplicates, n + 1, helpers);
    } else {
      assert duplicates[..n] == duplicates;
    }
  }

  /// The dictionary has one key per directory of the duplicates, and no
  /// other key.
  lemma {:induction false} IsolatedDuplicatesDirectoriesKeys(duplicates: seq<FileInfo>, helpers: PathHelpers)
    ensures var r := IsolatedDuplicatesDirectories(duplicates, helpers);
      r.Ok? ==> DistinctPairKeys(r.value) &&
                forall x :: x in PairKeys(r.value) <==> exists i :: 0 <= i < |duplicates| && ParentOf(duplicates[i]) == x
  {
    if duplicates != [] {
      var n := |duplicates| - 1;
      var init := duplicates[..n];
      IsolatedDuplicatesDirectoriesKeys(init, helpers);
      var prev := IsolatedDuplicatesDirectories(init, helpers);
      var r := IsolatedDuplicatesDirectories(duplicates, helpers);
      if r.Ok? {
        assert prev.Ok?;
        var parent := ParentOf(duplicates[n]);
        var keys := PairKeys(r.value);
        if parent !in PairKeys(prev.value) {
          var entry := r.value[|r.value| - 1];
          assert r.value == prev.value + [entry];
          assert keys == PairKeys(prev.value) + [parent];
        } else {
          assert keys == PairKeys(prev.value);
        }
        assert keys == PairKeys(prev.value) || keys == PairKeys(prev.value) + [parent];
        forall x | x in keys
          ensures exists i :: 0 <= i < |duplicates| && ParentOf(duplicates[i]) == x
        {
          if x != parent {
            assert x in PairKeys(prev.value);
            var i :| 0 <= i < n && ParentOf(init[i]) == x;
            assert duplicates[i] == init[i];
          }
        }
        forall x | exists i :: 0 <= i < |duplicates| && ParentOf(duplicates[i]) == x
          ensures x in keys
        {
          var i :| 0 <= i < |duplicates| && ParentOf(duplicates[i]) == x;
          if i < n {
            assert duplicates[i] == init[i];
          }
        }
      }
    }
  }

  /// The dictionary is built unless the relative path of the first
  /// duplicate of some directory cannot be computed.
  lemma {:induction false} IsolatedDuplicatesDirectoriesSucceed(duplicates: seq<FileInfo>, helpers: PathHelpers)
    ensures IsolatedDuplicatesDirectories(duplicates, helpers).Ok? <==>
      forall i :: 0 <= i < |duplicates| && FirstOfItsDirectory(duplicates, i) ==> RelativePathOf(duplicates[i], helpers).Ok?
  {
    if duplicates != [] {
      var r := IsolatedDuplicatesDirectories(duplicates, helpers);
      var n := |duplicates| - 1;
      var init := duplicates[..n];
      IsolatedDuplicatesDirectoriesSucceed(init, helpers);
      var prev := IsolatedDuplicatesDirectories(init, helpers);
      var last := duplicates[n];
      if prev.Err? {
        assert r == prev;
        var i :| 0 <= i < n && FirstOfItsDirectory(init, i) && RelativePathOf(init[i], helpers).Err?;
        FirstOfItsDirectoryPrefix(duplicates, n, i);
        assert RelativePathOf(duplicates[i], helpers).Err?;
      } else if ParentOf(last) in PairKeys(prev.value) {
        assert r == prev;
        IsolatedDuplicatesDirectoriesKeys(init, helpers);
        var j :| 0 <= j < n && ParentOf(init[j]) == ParentOf(last);
        assert duplicates[j] == init[j];
        assert !FirstOfItsDirectory(duplicates, n);
        forall i | 0 <= i < |duplicates| && FirstOfItsDirectory(duplicates, i)
          ensures RelativePathOf(duplicates[i], helpers).Ok?
        {
          FirstOfItsDirectoryOfPrefix(duplicates, n, i);
        }
      } else {
        NewKeyIsFirstOfItsDirectory(duplicates, helpers);
        if RelativePathOf(last, helpers).Err? {
          assert r.Err?;
        } else {
          assert r.Ok?;
          forall i | 0 <= i < |duplicates| && FirstOfItsDirectory(duplicates, i)
            ensures RelativePathOf(duplicates[i], helpers).Ok?
          {
            if i < n {
              FirstOfItsDirectoryOfPrefix(duplicates, n, i);
            }
          }
        }
      }
    }
  }

  /// Within a prefix, a duplicate that is the first of its directory in the
  /// whole sequence is the first in the prefix too.
  lemma FirstOfItsDirectoryOfPrefix(duplicates: seq<FileInfo>, n: nat, i: nat)
    requires i < n <= |duplicates| && FirstOfItsDirectory(duplicates, i)
    ensures FirstOfItsDirectory(duplicates[..n], i) && duplicates[..n][i] == duplicates[i]
  {
    forall j | 0 <= j < i ensures ParentOf(duplicates[..n][j]) != ParentOf(duplicates[..n][i]) {
      assert duplicates[j] == duplicates[..n][j] && duplicates[i] == duplicates[..n][i];
    }
  }

  /// A duplicate whose directory has no entry yet is the first of its
  /// directory.
  lemma NewKeyIsFirstOfItsDirectory(duplicates: seq<FileInfo>, helpers: PathHelpers)
    requires duplicates != []
    requires var prev := IsolatedDuplicatesDirectories(duplicates[..|duplicates| - 1], helpers);
      prev.Ok? && ParentOf(duplicates[|duplicates| - 1]) !in PairKeys(prev.value)
    ensures FirstOfItsDirectory(duplicates, |duplicates| - 1)
  {
    var n := |duplicates| - 1;
    var init := duplicates[..n];
    var prev := IsolatedDuplicatesDirectories(init, helpers);
    forall j | 0 <= j < n ensures ParentOf(duplicates[j]) != ParentOf(duplicates[n]) {
      assert duplicates[j] == init[j] && init[j] in init;
    }
  }

  lemma FirstOfItsDirectoryPrefix(duplicates: seq<FileInfo>, n: nat, i: nat)
    requires i < n <= |duplicates| && FirstOfItsDirectory(duplicates[..n], i)
    ensures FirstOfItsDirectory(duplicates, i)
  {
    forall j | 0 <= j < i ensures ParentOf(duplicates[j]) != ParentOf(duplicates[i]) {
      assert duplicates[j] == duplicates[..n][j] && duplicates[i] == duplicates[..n][i];
    }
  }

  /// Each entry of the dictionary is made from the first duplicate of its
  /// directory: the duplicate's location and relative path.
  lemma {:induction false} IsolatedDuplicatesDirectoriesEntries(duplicates: seq<FileInfo>, helpers: PathHelpers)
    ensures var r := IsolatedDuplicatesDirectories(duplicates, helpers);
      r.Ok? ==> EntriesFromFirsts(duplicates, helpers, r.value)
  {
    if duplicates != [] {
      var n := |duplicates| - 1;
      var init := duplicates[..n];
      IsolatedDuplicatesDirectoriesEntries(init, helpers);
      var prev := IsolatedDuplicatesDirectories(init, helpers);
      var r := IsolatedDuplicatesDirectories(duplicates, helpers);
      if r.Ok? {
        assert prev.Ok?;
        var last := duplicates[n];
        var newKey := ParentOf(last) !in PairKeys(prev.value);
        if newKey {
          NewKeyIsFirstOfItsDirectory(duplicates, helpers);
          assert r.value == prev.value + [(ParentOf(last), DirectoryForIsolatedDuplicates(last.dataLocation,
                                                                                         RelativePathOf(last, helpers).value))];
        } else {
          assert r == prev;
        }
        forall e | e in r.value
          ensures exists i :: EntryFrom(duplicates, i, helpers, e)
        {
          if e in prev.value {
            var i :| EntryFrom(init, i, helpers, e);
            FirstOfItsDirectoryPrefix(duplicates, n, i);
            assert EntryFrom(duplicates, i, helpers, e);
          } else {
            assert newKey;
            assert EntryFrom(duplicates, n, helpers, e);
          }
        }
      }
    }
  }

  /// Every entry is made from the first duplicate of its directory.
  ghost predicate EntriesFromFirsts(duplicates: seq<FileInfo>, helpers: PathHelpers, entries: seq<(FsEntity, DirectoryForIsolatedDuplicates)>) {
    forall e :: e in entries ==> exists i :: EntryFrom(duplicates, i, helpers, e)
  }

  /// The entry at i is made from duplicates[i], the first duplicate of its
  /// directory: its directory, location and relative path.
  predicate EntryFrom(duplicates: seq<FileInfo>, i: int, helpers: PathHelpers, e: (FsEntity, DirectoryForIsolatedDuplicates)) {
    0 <= i < |duplicates| && FirstOfItsDirectory(duplicates, i) && RelativePathOf(duplicates[i], helpers).Ok? &&
    e == (ParentOf(duplicates[i]), DirectoryForIsolatedDuplicates(duplicates[i].dataLocation, RelativePathOf(duplicates[i], helpers).value))
  }

  /// The first loop of MoveDuplicatesToSpecialFolder.
  method CollectIsolatedDuplicatesDirectories(duplicatesToMove: seq<FileInfo>, helpers: PathHelpers)
    returns (r: Result<seq<(FsEntity, DirectoryForIsolatedDuplicates)>>)
    ensures r == IsolatedDuplicatesDirectories(duplicatesToMove, helpers)
  {
    var isolatedDuplicatesDirectories := [];
    for i := 0 to |duplicatesToMove|
      invariant IsolatedDuplicatesDirectories(duplicatesToMove[..i], helpers) == Ok(isolatedDuplicatesDirectories)
    {
      var duplicate := duplicatesToMove[i];
      assert duplicatesToMove[..i + 1][..i] == duplicatesToMove[..i];
      var parentDirectory := duplicate.file.parent.value;
      if parentDirectory !in PairKeys(isolatedDuplicatesDirectories) {
        var directoryRelativePath := GetRelativePath(duplicate.dataLocation.path, PathOf(parentDirectory), helpers);
        if directoryRelativePath.Err? {
          IsolatedDuplicatesDirectoriesErrorPersists(duplicatesToMove, i + 1, helpers);
          return Err(directoryRelativePath.error);
        }
        var directoryForIsolatedDuplicates := DirectoryForIsolatedDuplicates(duplicate.dataLocation, directoryRelativePath.value);
        isolatedDuplicatesDirectories := isolatedDuplicatesDirectories + [(parentDirectory, directoryForIsolatedDuplicates)];
      }
    }
    assert duplicatesToMove[..|duplicatesToMove|] == duplicatesToMove;
    r := Ok(isolatedDuplicatesDirectories);
  }

  // ---------------------------------------------------------------------
  // Second loop: the destination directories, registered where missing
  // ---------------------------------------------------------------------

  /// The index's FindDirectory only ever answers with a registered
  /// directory.
  ghost predicate FindsRegistered(lookups: Lookups) {
    forall registered, path :: lookups.findByPath(registered, path).Some? ==>
      lookups.findByPath(registered, path).value in registered
  }

  /// AddDirectoryForIsolatedDuplicates on the registered directories:
  /// along the chain, a directory the index finds by its path is taken as
  /// it is, and a missing one is created under the current directory and
  /// registered. The result is the last directory of the chain and the
  /// directories registered afterwards. A blank name throws
  /// ArgumentException; creating a directory under no directory throws
  /// NullReferenceException.
  function Descend(current: Option<FsEntity>, chain: seq<(string, string)>, registered: set<FsEntity>, lookups: Lookups)
    : (r: Result<(Option<FsEntity>, set<FsEntity>)>)
    ensures r.Ok? && chain != [] ==> r.value.0.Some?
    decreases |chain|
  {
    if chain == [] then Ok((current, registered))
    else
      var found := lookups.findByPath(registered, chain[0].0);
      if found.Some? then Descend(found, chain[1..], registered, lookups)
      else match NewFsEntity(Some(chain[0].1), current)
        case Err(e) => Err(e)
        case Ok(sub) =>
          if current.None? then Err(NullReferenceException)
          else Descend(Some(sub), chain[1..], registered + {sub}, lookups)
  }

  /// Descending never unregisters a directory; it ends at a registered
  /// directory; and every directory it registers is created under the
  /// directory it started from or under a registered one.
  lemma {:induction false} DescendRegisters(current: Option<FsEntity>, chain: seq<(string, string)>,
                                            registered: set<FsEntity>, lookups: Lookups)
    requires FindsRegistered(lookups)
    requires current.Some? ==> current.value in registered
    ensures var r := Descend(current, chain, registered, lookups);
      r.Ok? ==> registered <= r.value.1 &&
                (r.value.0.Some? ==> r.value.0.value in r.value.1) &&
                forall d :: d in r.value.1 - registered ==>
                  d.parent.Some? && d.parent.value in r.value.1
    decreases |chain|
  {
    if chain != [] {
      var found := lookups.findByPath(registered, chain[0].0);
      if found.Some? {
        DescendRegisters(found, chain[1..], registered, lookups);
      } else {
        var created := NewFsEntity(Some(chain[0].1), current);
        if created.Ok? && current.Some? {
          var sub := created.value;
          DescendRegisters(Some(sub), chain[1..], registered + {sub}, lookups);
        }
      }
    }
  }

  /// The dictionary originalAndIsolatedDuplicateDirectories, together with
  /// the directories registered once it is built: for each entry of the
  /// first loop, in order, the directory the index finds at the entry's
  /// full path, or else the end of the entry's chain of nested directories.
  function Destinations(targets: seq<(FsEntity, DirectoryForIsolatedDuplicates)>, registered: set<FsEntity>,
                        lookups: Lookups, helpers: PathHelpers)
    : Result<(map<FsEntity, FsEntity>, set<FsEntity>)>
  {
    if targets == [] then Ok((map[], registered))
    else
      var prev := Destinations(targets[..|targets| - 1], registered, lookups, helpers);
      var key := targets[|targets| - 1].0;
      var target := targets[|targets| - 1].1;
      if prev.Err? then prev
      else
        var found := lookups.findByPath(prev.value.1, target.FullPath());
        if found.Some? then Ok((prev.value.0[key := found.value], prev.value.1))
        else
          var chain := helpers.chainOfNestedDirectories(target.dataLocation, target.RelativePath());
          match Descend(target.dataLocation.directory, chain, prev.value.1, lookups)
          case Err(e) => Err(e)
          case Ok(descended) => Ok((prev.value.0[key := descended.0.value], descended.1))
  }

  lemma {:induction false} DestinationsErrorPersists(targets: seq<(FsEntity, DirectoryForIsolatedDuplicates)>, n: nat,
                                                     registered: set<FsEntity>, lookups: Lookups, helpers: PathHelpers)
    requires n <= |targets|
    requires Destinations(targets[..n], registered, lookups, helpers).Err?
    ensures Destinations(targets, registered, lookups, helpers) == Destinations(targets[..n], registered, lookups, helpers)
    decreases |targets| - n
  {
    if n < |targets| {
      var longer := targets[..n + 1];
      assert longer[..|longer| - 1] == targets[..n];
      DestinationsErrorPersists(targets, n + 1, registered, lookups, helpers);
    } else {
      assert targets[..n] == targets;
    }
  }

  /// Every source directory gets a destination, and no other directory.
  lemma {:induction false} DestinationsKeys(targets: seq<(FsEntity, DirectoryForIsolatedDuplicates)>,
                                            registered: set<FsEntity>, lookups: Lookups, helpers: PathHelpers)
    ensures var r := Destinations(targets, registered, lookups, helpers);
      r.Ok? ==> r.value.0.Keys == set t | t in targets :: t.0
  {
    if targets != [] {
      var init := targets[..|targets| - 1];
      var last := targets[|targets| - 1];
      DestinationsKeys(init, registered, lookups, helpers);
      var prev := Destinations(init, registered, lookups, helpers);
      var r := Destinations(targets, registered, lookups, helpers);
      if r.Ok? {
        assert prev.Ok?;
        assert r.value.0.Keys == prev.value.0.Keys + {last.0};
        assert targets == init + [last];
        assert (set t | t in targets :: t.0) == (set t | t in init :: t.0) + {last.0};
      }
    }
  }

  /// Each destination is registered, and no directory is unregistered on
  /// the way.
  lemma {:induction false} DestinationsRegistered(targets: seq<(FsEntity, DirectoryForIsolatedDuplicates)>,
                                                  registered: set<FsEntity>, lookups: Lookups, helpers: PathHelpers)
    requires FindsRegistered(lookups)
    requires forall t :: t in targets && t.1.dataLocation.directory.Some? ==> t.1.dataLocation.directory.value in registered
    ensures var r := Destinations(targets, registered, lookups, helpers);
      r.Ok? ==> registered <= r.value.1 && forall k :: k in r.value.0 ==> r.value.0[k] in r.value.1
  {
    if targets != [] {
      var init := targets[..|targets| - 1];
      var last := targets[|targets| - 1];
      assert forall t :: t in init ==> t in targets;
      DestinationsRegistered(init, registered, lookups, helpers);
      var prev := Destinations(init, registered, lookups, helpers);
      var r := Destinations(targets, registered, lookups, helpers);
      if r.Ok? {
        assert prev.Ok?;
        var target := last.1;
        var (m, reg) := prev.value;
        var found := lookups.findByPath(reg, target.FullPath());
        if found.Some? {
          assert r.value == (m[last.0 := found.value], reg);
        } else {
          var chain := helpers.chainOfNestedDirectories(target.dataLocation, target.RelativePath());
          var descended := Descend(target.dataLocation.directory, chain, reg, lookups);
          DescendRegisters(target.dataLocation.directory, chain, reg, lookups);
          assert r.value == (m[last.0 := descended.value.0.value], descended.value.1);
        }
      }
    }
  }

  /// AddDirectoryForIsolatedDuplicates: walks the chain of nested
  /// directories of the entry from its location's root, registering each
  /// directory the index does not find.
  method AddDirectoryForIsolatedDuplicates(controller: DC.DataControllerSimple, target: DirectoryForIsolatedDuplicates,
                                           lookups: Lookups, helpers: PathHelpers)
    returns (r: Result<FsEntity>)
    modifies controller
    ensures var chain := helpers.chainOfNestedDirectories(target.dataLocation, target.RelativePath());
      var d := Descend(target.dataLocation.directory, chain, old(controller.directories), lookups);
      (r.Err? <==> d.Err?) && (r.Err? ==> r.error == d.error) &&
      (r.Ok? ==> r.value == d.value.0.value && controller.directories == d.value.1)
    ensures controller.files == old(controller.files) && controller.dataLocations == old(controller.dataLocations)
    ensures controller.inspections == old(controller.inspections) && controller.fileStates == old(controller.fileStates)
    ensures controller.blobInfos == old(controller.blobInfos)
  {
    var currentDirectory := target.dataLocation.directory;
    var chainOfSubDirectories := helpers.chainOfNestedDirectories(target.dataLocation, target.RelativePath());
    for i := 0 to |chainOfSubDirectories|
      invariant Descend(target.dataLocation.directory, chainOfSubDirectories, old(controller.directories), lookups) ==
                Descend(currentDirectory, chainOfSubDirectories[i..], controller.directories, lookups)
      invariant i > 0 ==> currentDirectory.Some?
      invariant controller.files == old(controller.files) && controller.dataLocations == old(controller.dataLocations)
      invariant controller.inspections == old(controller.inspections) && controller.fileStates == old(controller.fileStates)
      invariant controller.blobInfos == old(controller.blobInfos)
    {
      var rest := chainOfSubDirectories[i..];
      assert rest[0] == chainOfSubDirectories[i] && rest[1..] == chainOfSubDirectories[i + 1..];
      var subDirectoryPath := chainOfSubDirectories[i].0;
      var subDirectory := lookups.findByPath(controller.directories, subDirectoryPath);
      if subDirectory.None? {
        var directoryName := chainOfSubDirectories[i].1;
        var created := NewFsEntity(Some(directoryName), currentDirectory);
        if created.Err? {
          return Err(created.error);
        }
        if currentDirectory.None? {
          return Err(NullReferenceException);
        }
        var tree := DC.DirectoryTree(created.value, [], []);
        assert DC.TreeDirectories(tree) == {created.value} && DC.TreeFiles(tree) == {};
        controller.AddDirectory(tree);
        subDirectory := Some(created.value);
      }
      currentDirectory := subDirectory;
    }
    return Ok(currentDirectory.value);
  }

  /// The second loop of MoveDuplicatesToSpecialFolder.
  method PrepareDestinations(controller: DC.DataControllerSimple, targets: seq<(FsEntity, DirectoryForIsolatedDuplicates)>,
                             lookups: Lookups, helpers: PathHelpers)
    returns (r: Result<map<FsEntity, FsEntity>>)
    modifies controller
    ensures var d := Destinations(targets, old(controller.directories), lookups, helpers);
      (r.Err? <==> d.Err?) && (r.Err? ==> r.error == d.error) &&
      (r.Ok? ==> r.value == d.value.0 && controller.directories == d.value.1)
    ensures controller.files == old(controller.files) && controller.dataLocations == old(controller.dataLocations)
    ensures controller.inspections == old(controller.inspections) && controller.fileStates == old(controller.fileStates)
    ensures controller.blobInfos == old(controller.blobInfos)
  {
    var originalAndIsolatedDuplicateDirectories := map[];
    for i := 0 to |targets|
      invariant Destinations(targets[..i], old(controller.directories), lookups, helpers) ==
                Ok((originalAndIsolatedDuplicateDirectories, controller.directories))
      invariant controller.files == old(controller.files) && controller.dataLocations == old(controller.dataLocations)
      invariant controller.inspections == old(controller.inspections) && controller.fileStates == old(controller.fileStates)
      invariant controller.blobInfos == old(controller.blobInfos)
    {
      assert targets[..i + 1][..i] == targets[..i];
      var key := targets[i].0;
      var isolatedDuplicatesDirectoryInfo := targets[i].1;
      var destinationDirectoryPath := isolatedDuplicatesDirectoryInfo.FullPath();
      var directoryForIsolatedDuplicates := lookups.findByPath(controller.directories, destinationDirectoryPath);
      var destination;
      if directoryForIsolatedDuplicates.None? {
        var added := AddDirectoryForIsolatedDuplicates(controller, isolatedDuplicatesDirectoryInfo, lookups, helpers);
        if added.Err? {
          DestinationsErrorPersists(targets, i + 1, old(controller.directories), lookups, helpers);
          return Err(added.error);
        }
        destination := added.value;
      } else {
        destination := directoryForIsolatedDuplicates.value;
      }
      originalAndIsolatedDuplicateDirectories := originalAndIsolatedDuplicateDirectories[key := destination];
    }
    assert targets[..|targets|] == targets;
    r := Ok(originalAndIsolatedDuplicateDirectories);
  }

  // ---------------------------------------------------------------------
  // Third loop: each file moved in turn
  // ---------------------------------------------------------------------

  /// The state a moved file gets follows the old state: the same
  /// inspection, size and dates, and the blob of the duplicate.
  predicate FollowsState(updated: FileState, last: FileState, movedFile: FsEntity, blob: BlobInfo)
    reads updated
  {
    updated.file == movedFile && updated.previousState == last && updated.inspection == last.inspection &&
    updated.size == last.size && updated.creationDate == last.creationDate &&
    updated.modificationDate == last.modificationDate && updated.blobInfo == Some(blob)
  }

  /// The state of a moved file, as written: the old state is marked
  /// removed with the broken blob first, and the new state copies its
  /// status afterwards, so the new state is Removed as well.
  method CarryStateOverAsWritten(lastFileState: FileState, movedFile: FileEntity, blobInfo: BlobInfo)
    returns (updatedFileState: FileState)
    modifies lastFileState
    ensures lastFileState.status == Removed && lastFileState.blobInfo == Some(Broken)
    ensures lastFileState.previousState == old(lastFileState.previousState)
    ensures fresh(updatedFileState) && FollowsState(updatedFileState, lastFileState, movedFile, blobInfo)
    ensures updatedFileState.status == Removed
  {
    var inspection := lastFileState.inspection;
    lastFileState.SetStatusAndBlobInfo(Removed, Some(Broken));
    updatedFileState := new FileState(movedFile, inspection, lastFileState, lastFileState.size, lastFileState.status,
                                      lastFileState.creationDate, lastFileState.modificationDate, Some(blobInfo));
  }

  /// A file whose last state was New is recorded as removed at its new
  /// place too.
  method MovedFileLosesItsStatus(lastFileState: FileState, movedFile: FileEntity, blobInfo: BlobInfo)
    returns (updatedFileState: FileState)
    requires lastFileState.status == New
    modifies lastFileState
    ensures updatedFileState.status != old(lastFileState.status)
  {
    updatedFileState := CarryStateOverAsWritten(lastFileState, movedFile, blobInfo);
  }

  /// The state of a moved file, corrected: the new state keeps the status
  /// the old state had before it was marked removed.
  method CarryStateOver(lastFileState: FileState, movedFile: FileEntity, blobInfo: BlobInfo)
    returns (updatedFileState: FileState)
    modifies lastFileState
    ensures lastFileState.status == Removed && lastFileState.blobInfo == Some(Broken)
    ensures lastFileState.previousState == old(lastFileState.previousState)
    ensures fresh(updatedFileState) && FollowsState(updatedFileState, lastFileState, movedFile, blobInfo)
    ensures updatedFileState.status == old(lastFileState.status)
  {
    var inspection := lastFileState.inspection;
    var status := lastFileState.status;
    lastFileState.SetStatusAndBlobInfo(Removed, Some(Broken));
    updatedFileState := new FileState(movedFile, inspection, lastFileState, lastFileState.size, status,
                                      lastFileState.creationDate, lastFileState.modificationDate, Some(blobInfo));
  }

  /// The FileInfo a moved duplicate is replaced by in the report: the
  /// duplicate's blob and location, the file at its new place, and the
  /// isolated sort.
  predicate ReplacesInfo(updated: FileInfo, duplicate: FileInfo, movedFile: FsEntity, blob: BlobInfo)
    reads updated
  {
    updated.blob == blob && updated.file == movedFile && updated.dataLocation == duplicate.dataLocation &&
    updated.sort == IsolatedDuplicate && updated.group == null
  }

  /// The bookkeeping of a moved file once it has its new place: the last
  /// state is followed by a new one, and the report's FileInfo is replaced.
  method RecordMove(controller: DC.DataControllerSimple, report: ProcessorReport, duplicate: FileInfo,
                    movedFile: FileEntity, lastFileState: FileState)
    returns (updatedFileInfo: FileInfo, ghost updatedFileState: FileState)
    modifies controller, report, lastFileState
    ensures fresh(updatedFileInfo) && fresh(updatedFileState)
    ensures controller.fileStates == old(controller.fileStates) + [updatedFileState]
    ensures lastFileState.status == Removed && lastFileState.blobInfo == Some(Broken)
    ensures lastFileState.previousState == old(lastFileState.previousState)
    ensures FollowsState(updatedFileState, lastFileState, movedFile, duplicate.CurrentBlob())
    ensures updatedFileState.status == old(lastFileState.status)
    ensures ReplacesInfo(updatedFileInfo, duplicate, movedFile, duplicate.CurrentBlob())
    ensures report.changes == old(report.changes) + [FileInfoRemoved(duplicate), FileInfoAdded(updatedFileInfo)]
    ensures controller.files == old(controller.files) && controller.directories == old(controller.directories)
    ensures controller.dataLocations == old(controller.dataLocations) && controller.inspections == old(controller.inspections)
    ensures controller.blobInfos == old(controller.blobInfos)
  {
    var blobInfo := duplicate.CurrentBlob();
    var updated := CarryStateOver(lastFileState, movedFile, blobInfo);
    controller.AddFileState(updated);
    report.RemoveFileInfo(duplicate);
    updatedFileInfo := new FileInfo(blobInfo, movedFile, duplicate.dataLocation);
    updatedFileInfo.SetDuplicateSort(IsolatedDuplicate);
    report.AddFileInfo(updatedFileInfo);
    updatedFileState := updated;
  }

  /// One step of the third loop. A file the file system fails to move is
  /// skipped with no bookkeeping. A moved file is unregistered and
  /// registered again at its new place; its last state is marked removed
  /// and followed by a new state; and its FileInfo in the report is
  /// replaced by a new one. A blank name or a file with no state throws.
  method MoveFile(controller: DC.DataControllerSimple, report: ProcessorReport, duplicate: FileInfo,
                  destinationDirectory: FsEntity, destinationDirectoryPath: string, fs: FileSystem)
    returns (r: Result<Option<FileInfo>>, ghost updatedFileState: FileState?)
    modifies controller, report, LastStateSet(controller.fileStates, duplicate.file)
    ensures forall s :: s in controller.fileStates ==> s in old(controller.fileStates) || fresh(s)
    ensures var isMoved := fs.moveFile(duplicate.file, Combine(destinationDirectoryPath, duplicate.file.name));
      !isMoved ==> r == Ok(None) && unchanged(controller, report) &&
                   unchanged(LastStateSet(old(controller.fileStates), duplicate.file))
    ensures var isMoved := fs.moveFile(duplicate.file, Combine(destinationDirectoryPath, duplicate.file.name));
      var movedFile := NewFsEntity(Some(duplicate.file.name), Some(destinationDirectory));
      var last := LastFileState(old(controller.fileStates), duplicate.file);
      isMoved ==>
        (movedFile.Err? ==> r == Err(ArgumentException)) &&
        (movedFile.Ok? && last.None? ==> r == Err(NullReferenceException)) &&
        (movedFile.Ok? && last.Some? ==>
          r.Ok? && r.value.Some? && fresh(r.value.value) && updatedFileState != null && fresh(updatedFileState) &&
          controller.files == old(controller.files) - {duplicate.file} + {movedFile.value} &&
          controller.fileStates == old(controller.fileStates) + [updatedFileState] &&
          last.value.status == Removed && last.value.blobInfo == Some(Broken) &&
          last.value.previousState == old(last.value.previousState) &&
          FollowsState(updatedFileState, last.value, movedFile.value, duplicate.CurrentBlob()) &&
          updatedFileState.status == old(last.value.status) &&
          ReplacesInfo(r.value.value, duplicate, movedFile.value, duplicate.CurrentBlob()) &&
          report.changes == old(report.changes) + [FileInfoRemoved(duplicate), FileInfoAdded(r.value.value)] &&
          controller.directories == old(controller.directories) &&
          controller.dataLocations == old(controller.dataLocations) &&
          controller.inspections == old(controller.inspections) &&
          controller.blobInfos == old(controller.blobInfos))
  {
    var fileToMove := duplicate.file;
    var destinationFilePath := Combine(destinationDirectoryPath, fileToMove.name);
    var isMoved := fs.moveFile(fileToMove, destinationFilePath);
    if !isMoved {
      return Ok(None), null;
    }
    RemoveFile(controller, fileToMove);
    var movedFile := NewFsEntity(Some(fileToMove.name), Some(destinationDirectory));
    if movedFile.Err? {
      return Err(movedFile.error), null;
    }
    var file: FileEntity := movedFile.value;
    controller.AddFile(file);
    var lastFileState := LastFileState(controller.fileStates, fileToMove);
    if lastFileState.None? {
      return Err(NullReferenceException), null;
    }
    var updatedFileInfo;
    updatedFileInfo, updatedFileState := RecordMove(controller, report, duplicate, file, lastFileState.value);
    r := Ok(Some(updatedFileInfo));
  }

  /// The path a duplicate is moved to: its name, in the full path of the
  /// destination of its directory.
  function MoveDestinationPath(duplicate: FileInfo, targets: map<FsEntity, DirectoryForIsolatedDuplicates>): string
    requires ParentOf(duplicate) in targets
  {
    Combine(targets[ParentOf(duplicate)].FullPath(), duplicate.file.name)
  }

  /// The duplicates the file system moves, in order.
  function MovedDuplicates(duplicates: seq<FileInfo>, targets: map<FsEntity, DirectoryForIsolatedDuplicates>,
                           fs: FileSystem): (r: seq<FileInfo>)
    requires forall d :: d in duplicates ==> ParentOf(d) in targets
    ensures forall d :: d in r ==> d in duplicates && fs.moveFile(d.file, MoveDestinationPath(d, targets))
    ensures forall d :: d in duplicates && fs.moveFile(d.file, MoveDestinationPath(d, targets)) ==> d in r
  {
    if duplicates == [] then []
    else
      var last := duplicates[|duplicates| - 1];
      MovedDuplicates(duplicates[..|duplicates| - 1], targets, fs) +
        if fs.moveFile(last.file, MoveDestinationPath(last, targets)) then [last] else []
  }

  /// The registered files after the moves: each moved file leaves its old
  /// place and takes its new one, in turn.
  function Relocated(files: set<FileEntity>, moves: seq<(FileInfo, FileInfo)>): set<FileEntity> {
    if moves == [] then files
    else
      var last := moves[|moves| - 1];
      Relocated(files, moves[..|moves| - 1]) - {last.0.file} + {last.1.file}
  }

  /// What the report is told about the moves: for each, in turn, the old
  /// FileInfo removed and the new one added.
  function ReportedMoves(moves: seq<(FileInfo, FileInfo)>): seq<ReportChange> {
    if moves == [] then []
    else
      var last := moves[|moves| - 1];
      ReportedMoves(moves[..|moves| - 1]) + [FileInfoRemoved(last.0), FileInfoAdded(last.1)]
  }

  /// The new state of a moved file is about the file at its new place and
  /// keeps the inspection, size and dates of the last state of the file it
  /// was.
  predicate FollowsRemoved(updated: FileState, previous: FileState, moved: (FileInfo, FileInfo)) {
    updated.file == moved.1.file && previous.file == moved.0.file &&
    updated.inspection == previous.inspection && updated.size == previous.size &&
    updated.creationDate == previous.creationDate && updated.modificationDate == previous.modificationDate
  }

  /// The FileInfo that replaces a moved duplicate: the same location, and
  /// the file of the same name in the destination of its directory.
  predicate Replaces(moved: (FileInfo, FileInfo), destinations: map<FsEntity, FsEntity>) {
    ParentOf(moved.0) in destinations &&
    moved.1.file == FsEntity(moved.0.file.name, Some(destinations[ParentOf(moved.0)])) &&
    moved.1.dataLocation == moved.0.dataLocation
  }

  /// The replaceable fields of a FileState, as values.
  datatype StateFields = StateFields(status: FileStatus, blob: Option<BlobInfo>, previous: FileState?)

  /// The part of the index and of the report that the moves change, as
  /// values, with the replaceable fields of every registered state.
  datatype Index = Index(files: set<FileEntity>, directories: set<FsEntity>, dataLocations: seq<DataLocation>,
                         inspections: seq<Inspection>, fileStates: seq<FileState>, blobInfos: set<BlobInfo>,
                         changes: seq<ReportChange>, statuses: map<FileState, StateFields>)

  function IndexOf(controller: DC.DataControllerSimple, report: ProcessorReport): Index
    reads controller, report, set s | s in controller.fileStates
  {
    Index(controller.files, controller.directories, controller.dataLocations, controller.inspections,
          controller.fileStates, controller.blobInfos, report.changes,
          map s | s in controller.fileStates :: StateFields(s.status, s.blobInfo, s.previousState))
  }

  /// One move, from index i0 to index i1: the file leaves its old place for
  /// its new one and the report is told; the last state of the file is
  /// marked removed with the broken blob; a new state follows it, about the
  /// file at its new place, with the status the last state had, the blob of
  /// the new FileInfo, and the last state as its previous state; and
  /// nothing else changes.
  predicate Stepped(i0: Index, i1: Index, moved: (FileInfo, FileInfo), updated: FileState, last: FileState) {
    i1.files == i0.files - {moved.0.file} + {moved.1.file} &&
    i1.changes == i0.changes + [FileInfoRemoved(moved.0), FileInfoAdded(moved.1)] &&
    i1.fileStates == i0.fileStates + [updated] &&
    i1.directories == i0.directories && i1.dataLocations == i0.dataLocations &&
    i1.inspections == i0.inspections && i1.blobInfos == i0.blobInfos &&
    LastFileState(i0.fileStates, moved.0.file) == Some(last) && FollowsRemoved(updated, last, moved) &&
    last in i0.statuses && updated !in i0.statuses &&
    i1.statuses == i0.statuses[last := StateFields(Removed, Some(Broken), i0.statuses[last].previous)]
                              [updated := StateFields(i0.statuses[last].status, Some(moved.1.blob), last)]
  }

  /// The FileInfos that replace the moved duplicates carry the duplicates'
  /// blobs and the isolated sort, with no group attached.
  ghost predicate Tagged(movedFiles: seq<(FileInfo, FileInfo)>)
    reads Infos(movedFiles)
  {
    forall k :: 0 <= k < |movedFiles| ==>
      movedFiles[k].1.blob == movedFiles[k].0.CurrentBlob() && movedFiles[k].1.sort == IsolatedDuplicate &&
      movedFiles[k].1.group == null
  }

  /// The moves so far, against the index before the first: trail holds the
  /// index before each move and after the last, and each move is a step
  /// between two of them. Over the whole run: the report was told of each
  /// move; each file left its old place for its new one; the new states were
  /// appended; every state that was the last state of a moved file is now
  /// removed with the broken blob; every other state held before keeps its
  /// fields; and nothing else changed.
  predicate Moved(now: Index, start: Index, movedFiles: seq<(FileInfo, FileInfo)>, newStates: seq<FileState>,
                  previous: seq<FileState>, destinations: map<FsEntity, FsEntity>, trail: seq<Index>)
  {
    now.changes == start.changes + ReportedMoves(movedFiles) &&
    now.files == Relocated(start.files, movedFiles) &&
    now.fileStates == start.fileStates + newStates &&
    now.directories == start.directories && now.dataLocations == start.dataLocations &&
    now.inspections == start.inspections && now.blobInfos == start.blobInfos &&
    |newStates| == |movedFiles| && |previous| == |movedFiles| &&
    |trail| == |movedFiles| + 1 && trail[0] == start && trail[|movedFiles|] == now &&
    (forall k :: 0 <= k < |movedFiles| ==>
      Stepped(trail[k], trail[k + 1], movedFiles[k], newStates[k], previous[k]) &&
      Replaces(movedFiles[k], destinations)) &&
    (forall k :: 0 <= k < |previous| ==>
      previous[k] in now.statuses && now.statuses[previous[k]].status == Removed &&
      now.statuses[previous[k]].blob == Some(Broken)) &&
    forall s :: s in start.statuses && s !in previous ==> s in now.statuses && now.statuses[s] == start.statuses[s]
  }

  lemma {:induction false} MovedStep(i0: Index, i1: Index, start: Index, movedFiles: seq<(FileInfo, FileInfo)>,
                                     newStates: seq<FileState>, previous: seq<FileState>,
                                     destinations: map<FsEntity, FsEntity>, trail: seq<Index>,
                                     moved: (FileInfo, FileInfo), updated: FileState, last: FileState)
    requires Moved(i0, start, movedFiles, newStates, previous, destinations, trail)
    requires Stepped(i0, i1, moved, updated, last) && Replaces(moved, destinations)
    ensures Moved(i1, start, movedFiles + [moved], newStates + [updated], previous + [last], destinations, trail + [i1])
  {
    var movedFiles', newStates', previous', trail' := movedFiles + [moved], newStates + [updated], previous + [last],
                                                      trail + [i1];
    var n := |movedFiles|;
    assert movedFiles'[..n] == movedFiles;
    assert i1.fileStates == start.fileStates + newStates';
    forall k | 0 <= k < |movedFiles'|
      ensures Stepped(trail'[k], trail'[k + 1], movedFiles'[k], newStates'[k], previous'[k]) &&
              Replaces(movedFiles'[k], destinations)
    {
      if k < n {
        assert movedFiles'[k] == movedFiles[k] && newStates'[k] == newStates[k] && previous'[k] == previous[k];
        assert trail'[k] == trail[k] && trail'[k + 1] == trail[k + 1];
      } else {
        assert trail'[k] == i0 && trail'[k + 1] == i1;
      }
    }
    forall k | 0 <= k < |previous'|
      ensures previous'[k] in i1.statuses && i1.statuses[previous'[k]].status == Removed &&
              i1.statuses[previous'[k]].blob == Some(Broken)
    {
      if k < n {
        assert previous'[k] == previous[k] && previous[k] in i0.statuses;
      }
    }
    forall s | s in start.statuses && s !in previous'
      ensures s in i1.statuses && i1.statuses[s] == start.statuses[s]
    {
      assert s !in previous && s != last;
    }
  }

  /// MoveFile, stated over the index: a skipped file changes nothing, and a
  /// moved one is one step.
  method MoveNext(controller: DC.DataControllerSimple, report: ProcessorReport, duplicate: FileInfo,
                  targets: map<FsEntity, DirectoryForIsolatedDuplicates>, destinations: map<FsEntity, FsEntity>,
                  fs: FileSystem, ghost infos: set<FileInfo>)
    returns (r: Result<Option<FileInfo>>, ghost updatedFileState: FileState?, ghost lastFileState: FileState?)
    requires ParentOf(duplicate) in targets && ParentOf(duplicate) in destinations
    modifies controller, report, set s | s in controller.fileStates
    ensures r.Err? <==>
      (fs.moveFile(duplicate.file, MoveDestinationPath(duplicate, targets)) &&
       (IsNullOrWhiteSpace(Some(duplicate.file.name)) || LastFileState(old(controller.fileStates), duplicate.file).None?))
    ensures r.Err? ==>
      r.error == if IsNullOrWhiteSpace(Some(duplicate.file.name)) then ArgumentException else NullReferenceException
    ensures r.Ok? ==> (r.value.Some? <==> fs.moveFile(duplicate.file, MoveDestinationPath(duplicate, targets)))
    ensures r == Ok(None) ==> IndexOf(controller, report) == old(IndexOf(controller, report))
    ensures forall s :: s in controller.fileStates ==> s in old(controller.fileStates) || fresh(s)
    ensures unchanged(infos)
    ensures r.Ok? && r.value.Some? ==>
      fresh(r.value.value) && updatedFileState != null && fresh(updatedFileState) && lastFileState != null &&
      Stepped(old(IndexOf(controller, report)), IndexOf(controller, report), (duplicate, r.value.value),
              updatedFileState, lastFileState) &&
      Replaces((duplicate, r.value.value), destinations) &&
      ReplacesInfo(r.value.value, duplicate, r.value.value.file, duplicate.CurrentBlob())
  {
    var destinationDirectory := destinations[ParentOf(duplicate)];
    var destinationDirectoryPath := targets[ParentOf(duplicate)].FullPath();
    ghost var i0 := IndexOf(controller, report);
    ghost var last := LastFileState(controller.fileStates, duplicate.file);
    r, updatedFileState := MoveFile(controller, report, duplicate, destinationDirectory, destinationDirectoryPath, fs);
    lastFileState := if last.Some? then last.value else null;
    if r.Ok? && r.value.Some? {
      var l := last.value;
      ghost var expected := i0.statuses[l := StateFields(Removed, Some(Broken), i0.statuses[l].previous)]
                                      [updatedFileState := StateFields(i0.statuses[l].status, Some(r.value.value.blob), l)];
      forall s | s in controller.fileStates
        ensures s in expected && IndexOf(controller, report).statuses[s] == expected[s]
      {
        if s != updatedFileState && s != l {
          assert s in old(controller.fileStates);
        }
      }
    }
  }

  /// The dictionary of moved files takes a duplicate the file system
  /// moved and that it does not hold yet; it stays as it is for one the
  /// file system did not move.
  lemma {:induction false} MovedKeysStep(done: seq<FileInfo>, duplicate: FileInfo, movedFiles: seq<(FileInfo, FileInfo)>,
                                         replacement: FileInfo, targets: map<FsEntity, DirectoryForIsolatedDuplicates>,
                                         fs: FileSystem)
    requires forall d :: d in done + [duplicate] ==> ParentOf(d) in targets
    requires PairKeys(movedFiles) == MovedDuplicates(done, targets, fs) && DistinctPairKeys(movedFiles)
    ensures !fs.moveFile(duplicate.file, MoveDestinationPath(duplicate, targets)) ==>
      PairKeys(movedFiles) == MovedDuplicates(done + [duplicate], targets, fs)
    ensures fs.moveFile(duplicate.file, MoveDestinationPath(duplicate, targets)) && duplicate !in PairKeys(movedFiles) ==>
      PairKeys(movedFiles + [(duplicate, replacement)]) == MovedDuplicates(done + [duplicate], targets, fs) &&
      DistinctPairKeys(movedFiles + [(duplicate, replacement)])
  {
    assert (done + [duplicate])[..|done|] == done;
    var movedFiles' := movedFiles + [(duplicate, replacement)];
    assert PairKeys(movedFiles') == PairKeys(movedFiles) + [duplicate];
    if duplicate !in PairKeys(movedFiles) {
      forall i, j | 0 <= i < j < |movedFiles'|
        ensures movedFiles'[i].0 != movedFiles'[j].0
      {
        if j == |movedFiles| {
          assert PairKeys(movedFiles)[i] == movedFiles'[i].0;
        }
      }
    }
  }

  /// The third loop after the duplicates done: the dictionary holds the
  /// duplicates the file system moved, each once, and Moved relates the
  /// index to the one before the loop.
  predicate Progress(now: Index, start: Index, done: seq<FileInfo>, movedFiles: seq<(FileInfo, FileInfo)>,
                     newStates: seq<FileState>, previous: seq<FileState>,
                     targets: map<FsEntity, DirectoryForIsolatedDuplicates>, destinations: map<FsEntity, FsEntity>,
                     fs: FileSystem, trail: seq<Index>)
    requires forall d :: d in done ==> ParentOf(d) in targets
  {
    PairKeys(movedFiles) == MovedDuplicates(done, targets, fs) && DistinctPairKeys(movedFiles) &&
    Moved(now, start, movedFiles, newStates, previous, destinations, trail) &&
    FirstMoveFailure(done, start.fileStates, targets, destinations, fs).None?
  }

  /// The duplicate e, moved to the destination of its directory, is the
  /// file f.
  predicate MovesTo(e: FileInfo, destinations: map<FsEntity, FsEntity>, f: FsEntity) {
    ParentOf(e) in destinations && f == FsEntity(e.file.name, Some(destinations[ParentOf(e)]))
  }

  /// How one turn of the third loop fails, after the duplicates done went
  /// through without failure from the registered states given: not at all
  /// when the file system does not move the file; ArgumentException when
  /// the moved file cannot be built; NullReferenceException when the file
  /// has no state, neither registered before the loop nor recorded by an
  /// earlier move; ArgumentException when the dictionary of moved files
  /// already holds the duplicate.
  function MoveFailure(d: FileInfo, done: seq<FileInfo>, states: seq<FileState>,
                       targets: map<FsEntity, DirectoryForIsolatedDuplicates>, destinations: map<FsEntity, FsEntity>,
                       fs: FileSystem): Option<Exception>
    requires forall e :: e in done + [d] ==> ParentOf(e) in targets
  {
    var moved := MovedDuplicates(done, targets, fs);
    if !fs.moveFile(d.file, MoveDestinationPath(d, targets)) then None
    else if IsNullOrWhiteSpace(Some(d.file.name)) then Some(ArgumentException)
    else if LastFileState(states, d.file).None? && forall e :: e in moved ==> !MovesTo(e, destinations, d.file) then
      Some(NullReferenceException)
    else if d in moved then Some(ArgumentException)
    else None
  }

  /// The failure of the third loop: that of the first turn that fails.
  function FirstMoveFailure(duplicates: seq<FileInfo>, states: seq<FileState>,
                            targets: map<FsEntity, DirectoryForIsolatedDuplicates>,
                            destinations: map<FsEntity, FsEntity>, fs: FileSystem): Option<Exception>
    requires forall e :: e in duplicates ==> ParentOf(e) in targets
  {
    if duplicates == [] then None
    else
      var init := duplicates[..|duplicates| - 1];
      var failure := FirstMoveFailure(init, states, targets, destinations, fs);
      if failure.Some? then failure else MoveFailure(duplicates[|duplicates| - 1], init, states, targets, destinations, fs)
  }

  /// Once a prefix of the duplicates fails, the whole loop fails the same
  /// way.
  lemma {:induction false} FirstMoveFailurePersists(duplicates: seq<FileInfo>, n: nat, states: seq<FileState>,
                                                    targets: map<FsEntity, DirectoryForIsolatedDuplicates>,
                                                    destinations: map<FsEntity, FsEntity>, fs: FileSystem)
    requires n <= |duplicates| && forall e :: e in duplicates ==> ParentOf(e) in targets
    requires FirstMoveFailure(duplicates[..n], states, targets, destinations, fs).Some?
    ensures FirstMoveFailure(duplicates, states, targets, destinations, fs) ==
            FirstMoveFailure(duplicates[..n], states, targets, destinations, fs)
    decreases |duplicates|
  {
    if n < |duplicates| {
      var init := duplicates[..|duplicates| - 1];
      assert init[..n] == duplicates[..n];
      FirstMoveFailurePersists(init, n, states, targets, destinations, fs);
    } else {
      assert duplicates[..n] == duplicates;
    }
  }

  /// After a prefix that went through, the loop fails as its next turn does.
  lemma FirstMoveFailureSnoc(done: seq<FileInfo>, d: FileInfo, states: seq<FileState>,
                             targets: map<FsEntity, DirectoryForIsolatedDuplicates>,
                             destinations: map<FsEntity, FsEntity>, fs: FileSystem)
    requires forall e :: e in done + [d] ==> ParentOf(e) in targets
    requires FirstMoveFailure(done, states, targets, destinations, fs).None?
    ensures FirstMoveFailure(done + [d], states, targets, destinations, fs) ==
            MoveFailure(d, done, states, targets, destinations, fs)
  {
    assert (done + [d])[..|done|] == done;
  }

  /// A loop whose file system moves nothing never fails.
  lemma {:induction false} NothingMovedNeverFails(duplicates: seq<FileInfo>, states: seq<FileState>,
                                                  targets: map<FsEntity, DirectoryForIsolatedDuplicates>,
                                                  destinations: map<FsEntity, FsEntity>, fs: FileSystem)
    requires forall e :: e in duplicates ==> ParentOf(e) in targets
    requires forall e :: e in duplicates ==> !fs.moveFile(e.file, MoveDestinationPath(e, targets))
    ensures FirstMoveFailure(duplicates, states, targets, destinations, fs).None?
  {
    if duplicates != [] {
      NothingMovedNeverFails(duplicates[..|duplicates| - 1], states, targets, destinations, fs);
    }
  }

  /// During the third loop, a file has a registered state exactly when it
  /// had one before the loop or an earlier move recorded it at its new
  /// place.
  lemma {:induction false} MovedStateFiles(now: Index, start: Index, done: seq<FileInfo>,
                                           movedFiles: seq<(FileInfo, FileInfo)>, newStates: seq<FileState>,
                                           previous: seq<FileState>, targets: map<FsEntity, DirectoryForIsolatedDuplicates>,
                                           destinations: map<FsEntity, FsEntity>, fs: FileSystem, trail: seq<Index>,
                                           f: FsEntity)
    requires forall d :: d in done ==> ParentOf(d) in targets
    requires Progress(now, start, done, movedFiles, newStates, previous, targets, destinations, fs, trail)
    ensures LastFileState(now.fileStates, f).None? <==>
      LastFileState(start.fileStates, f).None? &&
      forall e :: e in MovedDuplicates(done, targets, fs) ==> !MovesTo(e, destinations, f)
  {
    forall k | 0 <= k < |newStates|
      ensures newStates[k].file == movedFiles[k].1.file && Replaces(movedFiles[k], destinations)
    {
      assert Stepped(trail[k], trail[k + 1], movedFiles[k], newStates[k], previous[k]);
    }
    RecordedFiles(now.fileStates, start.fileStates, newStates, movedFiles, destinations, f);
  }

  /// The registered states after some recorded moves: a file has one
  /// exactly when it had one before, or one of the moves took a duplicate
  /// to it.
  lemma {:induction false} RecordedFiles(states: seq<FileState>, before: seq<FileState>, newStates: seq<FileState>,
                                         moves: seq<(FileInfo, FileInfo)>, destinations: map<FsEntity, FsEntity>,
                                         f: FsEntity)
    requires states == before + newStates && |newStates| == |moves|
    requires forall k :: 0 <= k < |newStates| ==> newStates[k].file == moves[k].1.file && Replaces(moves[k], destinations)
    ensures LastFileState(states, f).None? <==>
      LastFileState(before, f).None? && forall e :: e in PairKeys(moves) ==> !MovesTo(e, destinations, f)
  {
    var keys := PairKeys(moves);
    if LastFileState(states, f).None? {
      forall i | 0 <= i < |before|
        ensures before[i].file != f
      {
        assert states[i] == before[i];
      }
      forall e | e in keys
        ensures !MovesTo(e, destinations, f)
      {
        var k :| 0 <= k < |keys| && keys[k] == e;
        assert states[|before| + k] == newStates[k];
      }
    } else {
      var i :| 0 <= i < |states| && states[i].file == f;
      if i >= |before| {
        var k := i - |before|;
        assert newStates[k] == states[i];
        assert keys[k] in keys && MovesTo(keys[k], destinations, f);
      } else {
        assert before[i] == states[i];
      }
    }
  }

  /// One turn of the third loop: the duplicate is moved, and when it was
  /// moved already the dictionary of moved files refuses it.
  method MoveStep(controller: DC.DataControllerSimple, report: ProcessorReport, ghost start: Index,
                  ghost done: seq<FileInfo>, movedFiles: seq<(FileInfo, FileInfo)>, ghost newStates: seq<FileState>,
                  ghost previous: seq<FileState>, ghost trail: seq<Index>, duplicate: FileInfo,
                  targets: map<FsEntity, DirectoryForIsolatedDuplicates>, destinations: map<FsEntity, FsEntity>,
                  fs: FileSystem)
    returns (r: Result<seq<(FileInfo, FileInfo)>>, ghost newStates': seq<FileState>, ghost previous': seq<FileState>,
             ghost trail': seq<Index>)
    requires forall d :: d in done + [duplicate] ==> ParentOf(d) in targets && ParentOf(d) in destinations
    requires Progress(IndexOf(controller, report), start, done, movedFiles, newStates, previous, targets, destinations, fs,
                      trail)
    requires Tagged(movedFiles)
    modifies controller, report, set s | s in controller.fileStates
    ensures r.Err? <==> FirstMoveFailure(done + [duplicate], start.fileStates, targets, destinations, fs).Some?
    ensures r.Err? ==> r.error == FirstMoveFailure(done + [duplicate], start.fileStates, targets, destinations, fs).value
    ensures r.Ok? ==>
      Progress(IndexOf(controller, report), start, done + [duplicate], r.value, newStates', previous', targets,
               destinations, fs, trail') &&
      Tagged(r.value) &&
      forall s :: s in controller.fileStates ==> s in old(controller.fileStates) || fresh(s)
  {
    ghost var i0 := IndexOf(controller, report);
    MovedStateFiles(i0, start, done, movedFiles, newStates, previous, targets, destinations, fs, trail, duplicate.file);
    FirstMoveFailureSnoc(done, duplicate, start.fileStates, targets, destinations, fs);
    ghost var infos := Infos(movedFiles);
    var isMoved, updatedFileState, lastFileState := MoveNext(controller, report, duplicate, targets, destinations, fs,
                                                             infos);
    ghost var i1 := IndexOf(controller, report);
    newStates', previous', trail' := newStates, previous, trail;
    if isMoved.Err? {
      return Err(isMoved.error), newStates', previous', trail';
    }
    if isMoved.value.None? {
      MovedKeysStep(done, duplicate, movedFiles, duplicate, targets, fs);
      return Ok(movedFiles), newStates', previous', trail';
    }
    if duplicate in PairKeys(movedFiles) {
      return Err(ArgumentException), newStates', previous', trail';
    }
    var moved := (duplicate, isMoved.value.value);
    ghost var updated: FileState, last: FileState := updatedFileState, lastFileState;
    ProgressStep(i0, i1, start, done, movedFiles, newStates, previous, targets, destinations, fs, trail, moved,
                 updated, last);
    TaggedStep(movedFiles, moved);
    r := Ok(movedFiles + [moved]);
    newStates', previous', trail' := newStates + [updated], previous + [last], trail + [i1];
  }

  /// The FileInfos of the moves.
  function Infos(movedFiles: seq<(FileInfo, FileInfo)>): set<FileInfo> {
    (set k | 0 <= k < |movedFiles| :: movedFiles[k].0) + (set k | 0 <= k < |movedFiles| :: movedFiles[k].1)
  }

  /// One move carries the progress of the third loop on.
  lemma {:induction false} ProgressStep(i0: Index, i1: Index, start: Index, done: seq<FileInfo>,
                                        movedFiles: seq<(FileInfo, FileInfo)>, newStates: seq<FileState>,
                                        previous: seq<FileState>, targets: map<FsEntity, DirectoryForIsolatedDuplicates>,
                                        destinations: map<FsEntity, FsEntity>, fs: FileSystem, trail: seq<Index>,
                                        moved: (FileInfo, FileInfo), updated: FileState, last: FileState)
    requires forall d :: d in done + [moved.0] ==> ParentOf(d) in targets
    requires Progress(i0, start, done, movedFiles, newStates, previous, targets, destinations, fs, trail)
    requires fs.moveFile(moved.0.file, MoveDestinationPath(moved.0, targets)) && moved.0 !in PairKeys(movedFiles)
    requires Stepped(i0, i1, moved, updated, last) && Replaces(moved, destinations)
    requires FirstMoveFailure(done + [moved.0], start.fileStates, targets, destinations, fs).None?
    ensures Progress(i1, start, done + [moved.0], movedFiles + [moved], newStates + [updated], previous + [last],
                     targets, destinations, fs, trail + [i1])
  {
    MovedStep(i0, i1, start, movedFiles, newStates, previous, destinations, trail, moved, updated, last);
    MovedKeysStep(done, moved.0, movedFiles, moved.1, targets, fs);
  }

  lemma {:induction false} TaggedStep(movedFiles: seq<(FileInfo, FileInfo)>, moved: (FileInfo, FileInfo))
    requires Tagged(movedFiles)
    requires moved.1.blob == moved.0.CurrentBlob() && moved.1.sort == IsolatedDuplicate && moved.1.group == null
    ensures Tagged(movedFiles + [moved])
  {
    forall k | 0 <= k < |movedFiles + [moved]|
      ensures (movedFiles + [moved])[k].1.blob == (movedFiles + [moved])[k].0.CurrentBlob()
    {
      if k < |movedFiles| {
        assert (movedFiles + [moved])[k] == movedFiles[k];
      }
    }
  }

  /// The third loop of MoveDuplicatesToSpecialFolder. The result pairs
  /// each duplicate the file system moved with the FileInfo that replaces
  /// it; the same duplicate moved twice throws ArgumentException.
  method MoveFiles(controller: DC.DataControllerSimple, report: ProcessorReport, duplicatesToMove: seq<FileInfo>,
                   targets: map<FsEntity, DirectoryForIsolatedDuplicates>, destinations: map<FsEntity, FsEntity>,
                   fs: FileSystem)
    returns (r: Result<seq<(FileInfo, FileInfo)>>, ghost newStates: seq<FileState>, ghost previous: seq<FileState>,
             ghost trail: seq<Index>)
    requires forall d :: d in duplicatesToMove ==> ParentOf(d) in targets && ParentOf(d) in destinations
    modifies controller, report, set s | s in controller.fileStates
    ensures r.Err? <==> FirstMoveFailure(duplicatesToMove, old(controller.fileStates), targets, destinations, fs).Some?
    ensures r.Err? ==> r.error == FirstMoveFailure(duplicatesToMove, old(controller.fileStates), targets, destinations, fs).value
    ensures r.Ok? ==> PairKeys(r.value) == MovedDuplicates(duplicatesToMove, targets, fs) && DistinctPairKeys(r.value)
    ensures r.Ok? ==> Moved(IndexOf(controller, report), old(IndexOf(controller, report)), r.value, newStates, previous,
                            destinations, trail) && Tagged(r.value)
  {
    r, newStates, previous, trail := MoveEach(controller, report, duplicatesToMove, targets, destinations, fs);
  }

  /// The loop of MoveFiles, stated by its progress.
  method MoveEach(controller: DC.DataControllerSimple, report: ProcessorReport, duplicatesToMove: seq<FileInfo>,
                   targets: map<FsEntity, DirectoryForIsolatedDuplicates>, destinations: map<FsEntity, FsEntity>,
                   fs: FileSystem)
    returns (r: Result<seq<(FileInfo, FileInfo)>>, ghost newStates: seq<FileState>, ghost previous: seq<FileState>,
             ghost trail: seq<Index>)
    requires forall d :: d in duplicatesToMove ==> ParentOf(d) in targets && ParentOf(d) in destinations
    modifies controller, report, set s | s in controller.fileStates
    ensures r.Err? ==> FirstMoveFailure(duplicatesToMove, old(controller.fileStates), targets, destinations, fs) == Some(r.error)
    ensures r.Ok? ==> Progress(IndexOf(controller, report), old(IndexOf(controller, report)), duplicatesToMove, r.value,
                               newStates, previous, targets, destinations, fs, trail) && Tagged(r.value)
  {
    ghost var start := IndexOf(controller, report);
    var movedFiles := [];
    newStates, previous, trail := [], [], [start];
    for i := 0 to |duplicatesToMove|
      invariant Progress(IndexOf(controller, report), start, duplicatesToMove[..i], movedFiles, newStates, previous,
                         targets, destinations, fs, trail)
      invariant Tagged(movedFiles)
      invariant forall s :: s in controller.fileStates ==> s in start.fileStates || fresh(s)
    {
      var step;
      step, newStates, previous, trail := MoveTurn(controller, report, start, duplicatesToMove, i, movedFiles,
                                                   newStates, previous, trail, targets, destinations, fs);
      if step.Err? {
        return Err(step.error), newStates, previous, trail;
      }
      movedFiles := step.value;
    }
    assert duplicatesToMove[..|duplicatesToMove|] == duplicatesToMove;
    r := Ok(movedFiles);
  }

  /// Turn i of the third loop, over the whole list of duplicates: a
  /// failing turn fails the loop.
  method MoveTurn(controller: DC.DataControllerSimple, report: ProcessorReport, ghost start: Index,
                  duplicatesToMove: seq<FileInfo>, i: nat, movedFiles: seq<(FileInfo, FileInfo)>,
                  ghost newStates: seq<FileState>, ghost previous: seq<FileState>, ghost trail: seq<Index>,
                  targets: map<FsEntity, DirectoryForIsolatedDuplicates>, destinations: map<FsEntity, FsEntity>,
                  fs: FileSystem)
    returns (r: Result<seq<(FileInfo, FileInfo)>>, ghost newStates': seq<FileState>, ghost previous': seq<FileState>,
             ghost trail': seq<Index>)
    requires i < |duplicatesToMove|
    requires forall d :: d in duplicatesToMove ==> ParentOf(d) in targets && ParentOf(d) in destinations
    requires Progress(IndexOf(controller, report), start, duplicatesToMove[..i], movedFiles, newStates, previous,
                      targets, destinations, fs, trail)
    requires Tagged(movedFiles)
    modifies controller, report, set s | s in controller.fileStates
    ensures r.Err? ==> FirstMoveFailure(duplicatesToMove, start.fileStates, targets, destinations, fs) == Some(r.error)
    ensures r.Ok? ==>
      Progress(IndexOf(controller, report), start, duplicatesToMove[..i + 1], r.value, newStates', previous', targets,
               destinations, fs, trail') &&
      Tagged(r.value) &&
      forall s :: s in controller.fileStates ==> s in old(controller.fileStates) || fresh(s)
  {
    PrefixGrows(duplicatesToMove, i);
    r, newStates', previous', trail' := MoveStep(controller, report, start, duplicatesToMove[..i], movedFiles, newStates,
                                                 previous, trail, duplicatesToMove[i], targets, destinations, fs);
    if r.Err? {
      FirstMoveFailurePersists(duplicatesToMove, i + 1, start.fileStates, targets, destinations, fs);
    }
  }

  lemma PrefixGrows<T>(s: seq<T>, i: nat)
    requires i < |s|
    ensures s[..i + 1] == s[..i] + [s[i]]
  {
  }

  /// A dictionary filled from its entries in insertion order.
  function ToMap<K, V>(pairs: seq<(K, V)>): (m: map<K, V>)
    ensures forall k :: k in m ==> k in PairKeys(pairs)
    ensures forall k :: k in PairKeys(pairs) ==> k in m
  {
    if pairs == [] then map[]
    else ToMap(pairs[..|pairs| - 1])[pairs[|pairs| - 1].0 := pairs[|pairs| - 1].1]
  }

  /// With distinct keys, each entry is found in the dictionary.
  lemma {:induction false} ToMapValues<K, V>(pairs: seq<(K, V)>)
    requires DistinctPairKeys(pairs)
    ensures forall i :: 0 <= i < |pairs| ==> ToMap(pairs)[pairs[i].0] == pairs[i].1
  {
    if pairs != [] {
      var init := pairs[..|pairs| - 1];
      ToMapValues(init);
      forall i | 0 <= i < |pairs|
        ensures ToMap(pairs)[pairs[i].0] == pairs[i].1
      {
        if i < |init| {
          assert init[i] == pairs[i];
        }
      }
    }
  }

  /// MoveDuplicatesToSpecialFolder: a destination directory is chosen for
  /// the directory of each duplicate, registered in the index where the
  /// index does not find it, and each duplicate the file system moves there
  /// is recorded at its new place. The result pairs each moved duplicate
  /// with the FileInfo that replaces it.
  method MoveDuplicatesToSpecialFolder(controller: DC.DataControllerSimple, report: ProcessorReport,
                                       duplicatesToMove: seq<FileInfo>, lookups: Lookups, helpers: PathHelpers,
                                       fs: FileSystem)
    returns (r: Result<seq<(FileInfo, FileInfo)>>, ghost newStates: seq<FileState>, ghost previous: seq<FileState>,
             ghost trail: seq<Index>)
    modifies controller, report, set s | s in controller.fileStates
    ensures var targets := IsolatedDuplicatesDirectories(duplicatesToMove, helpers);
      targets.Err? ==> r == Err(targets.error) && unchanged(controller, report)
    ensures var targets := IsolatedDuplicatesDirectories(duplicatesToMove, helpers);
      targets.Ok? ==>
        var d := Destinations(targets.value, old(controller.directories), lookups, helpers);
        (d.Err? ==> r == Err(d.error)) &&
        (d.Ok? ==>
          var failure := FirstMoveFailure(duplicatesToMove, old(controller.fileStates), ToMap(targets.value), d.value.0, fs);
          (r.Err? <==> failure.Some?) && (r.Err? ==> r.error == failure.value)) &&
        (d.Ok? && r.Ok? ==>
          PairKeys(r.value) == MovedDuplicates(duplicatesToMove, ToMap(targets.value), fs) &&
          DistinctPairKeys(r.value) &&
          Moved(IndexOf(controller, report), old(IndexOf(controller, report)).(directories := d.value.1),
                r.value, newStates, previous, d.value.0, trail) &&
          Tagged(r.value))
  {
    newStates, previous, trail := [], [], [];
    ghost var entry := IndexOf(controller, report);
    var collected := CollectIsolatedDuplicatesDirectories(duplicatesToMove, helpers);
    if collected.Err? {
      return Err(collected.error), newStates, previous, trail;
    }
    assert IndexOf(controller, report) == entry;
    assert forall d :: d in duplicatesToMove ==> ParentOf(d) in ToMap(collected.value);
    r, newStates, previous, trail := MoveToDestinations(controller, report, duplicatesToMove, collected.value, lookups,
                                                        helpers, fs);
  }

  /// The second and third loops of MoveDuplicatesToSpecialFolder, once
  /// the destination of every directory is known.
  method MoveToDestinations(controller: DC.DataControllerSimple, report: ProcessorReport, duplicatesToMove: seq<FileInfo>,
                            targets: seq<(FsEntity, DirectoryForIsolatedDuplicates)>, lookups: Lookups,
                            helpers: PathHelpers, fs: FileSystem)
    returns (r: Result<seq<(FileInfo, FileInfo)>>, ghost newStates: seq<FileState>, ghost previous: seq<FileState>,
             ghost trail: seq<Index>)
    requires forall d :: d in duplicatesToMove ==> ParentOf(d) in ToMap(targets)
    modifies controller, report, set s | s in controller.fileStates
    ensures var d := Destinations(targets, old(controller.directories), lookups, helpers);
      (d.Err? ==> r == Err(d.error)) &&
      (d.Ok? ==>
        var failure := FirstMoveFailure(duplicatesToMove, old(controller.fileStates), ToMap(targets), d.value.0, fs);
        (r.Err? <==> failure.Some?) && (r.Err? ==> r.error == failure.value)) &&
      (d.Ok? && r.Ok? ==>
        PairKeys(r.value) == MovedDuplicates(duplicatesToMove, ToMap(targets), fs) &&
        DistinctPairKeys(r.value) &&
        Moved(IndexOf(controller, report), old(IndexOf(controller, report)).(directories := d.value.1),
              r.value, newStates, previous, d.value.0, trail) &&
        Tagged(r.value))
  {
    newStates, previous, trail := [], [], [];
    ghost var before := IndexOf(controller, report);
    var prepared := PrepareDestinations(controller, targets, lookups, helpers);
    if prepared.Err? {
      return Err(prepared.error), newStates, previous, trail;
    }
    var destinations := prepared.value;
    ghost var start := IndexOf(controller, report);
    assert start == before.(directories := controller.directories);
    DestinationsKeys(targets, old(controller.directories), lookups, helpers);
    var isolatedDuplicatesDirectories := ToMap(targets);
    assert forall d :: d in duplicatesToMove ==>
      ParentOf(d) in isolatedDuplicatesDirectories && ParentOf(d) in destinations by {
      forall d | d in duplicatesToMove
        ensures ParentOf(d) in destinations
      {
        var k :| 0 <= k < |targets| && targets[k].0 == ParentOf(d);
        assert targets[k] in targets;
      }
    }
    r, newStates, previous, trail := MoveFiles(controller, report, duplicatesToMove, isolatedDuplicatesDirectories,
                                               destinations, fs);
  }
}
