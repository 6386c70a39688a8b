/// The two actions of DuplicatesProcessor on duplicates: moving files into
/// the "isolated duplicates" folder of their location, and deleting files
/// that lie in such a folder. The file system is reached only through the
/// calls bundled in FileSystem, each of which reports whether it succeeded.
module ProcessorActions {
  import opened DotNet
  import opened BlobInfos
  import opened FsEntities
  import opened DataLocations
  import opened Inspections
  import opened FileStates
  import opened Grouping
  import opened Duplicates
  import opened Processing
  import DC = DataController

  /// The file-system calls: IFileSystemProvider.MoveFile and DeleteFile,
  /// true when they return and false when they throw, and Directory.Exists.
  datatype FileSystem = FileSystem(
    moveFile: (FileEntity, string) -> bool,
    deleteFile: FileEntity -> bool,
    directoryExists: string -> bool)

  // ---------------------------------------------------------------------
  // Index calls the index class of this model does not declare
  // ---------------------------------------------------------------------

  /// The index's RemoveFile: the file is no longer registered, and nothing
  /// else changes.
  method RemoveFile(controller: DC.DataControllerSimple, file: FileEntity)
    modifies controller
    ensures controller.files == old(controller.files) - {file}
    ensures controller.directories == old(controller.directories)
    ensures controller.dataLocations == old(controller.dataLocations)
    ensures controller.inspections == old(controller.inspections)
    ensures controller.fileStates == old(controller.fileStates)
    ensures controller.blobInfos == old(controller.blobInfos)
  {
    controller.files := controller.files - {file};
  }

  /// The index's GetLastFileState: the latest registered state of the file,
  /// none when it has none.
  function LastFileState(states: seq<FileState>, file: FsEntity): (r: Option<FileState>)
    ensures r.None? <==> forall i :: 0 <= i < |states| ==> states[i].file != file
    ensures r.Some? ==> exists i :: 0 <= i < |states| && states[i] == r.value && states[i].file == file &&
                                   (forall j :: i < j < |states| ==> states[j].file != file)
  {
    if states == [] then None
    else if states[|states| - 1].file == file then Some(states[|states| - 1])
    else LastFileState(states[..|states| - 1], file)
  }

  // ---------------------------------------------------------------------
  // DeleteDuplicates
  // ---------------------------------------------------------------------

  /// DataStructureHelper.GetDirectoriesForIsolatedDuplicates: for each
  /// location whose "isolated duplicates" folder exists on disk, a directory
  /// of that name under the location's root.
  function DirectoriesOnDisk(locations: seq<DataLocation>, fs: FileSystem): set<FsEntity> {
    set l | l in locations && fs.directoryExists(Combine(l.path, FolderNameForDuplicates)) ::
      FsEntity(FolderNameForDuplicates, l.directory)
  }

  /// The loop of GetDirectoriesForIsolatedDuplicates over the locations.
  method GetDirectoriesOnDisk(locations: seq<DataLocation>, fs: FileSystem) returns (directories: set<FsEntity>)
    ensures directories == DirectoriesOnDisk(locations, fs)
  {
    directories := {};
    for i := 0 to |locations|
      invariant directories == DirectoriesOnDisk(locations[..i], fs)
    {
      var l := locations[i];
      assert locations[..i + 1] == locations[..i] + [l];
      var duplicatesFolderPath := Combine(l.path, FolderNameForDuplicates);
      if fs.directoryExists(duplicatesFolderPath) {
        directories := directories + {FsEntity(FolderNameForDuplicates, l.directory)};
      }
    }
    assert locations[..|locations|] == locations;
  }

  /// Whether a file lies under one of the directories, as the inner loop of
  /// DeleteDuplicates asks the index: a file the index does not know throws
  /// at the first directory asked about.
  function UnderDirectories(directories: set<FsEntity>, registered: set<FileEntity>, file: FileEntity): Result<bool> {
    if directories != {} && file !in registered then Err(ArgumentException)
    else Ok(exists d :: d in directories && IsAncestor(d, file))
  }

  /// The check DeleteDuplicates makes before deleting anything: passes when
  /// every file lies under one of the directories, and otherwise fails with
  /// the exception of the first file that does not: the index's exception,
  /// or a general exception when no directory holds the file.
  function DeletionCheck(files: seq<FileInfo>, directories: set<FsEntity>, registered: set<FileEntity>): (o: Outcome)
    ensures o.Pass? <==> forall i :: 0 <= i < |files| ==> UnderDirectories(directories, registered, files[i].file) == Ok(true)
    ensures o.Fail? ==> o.error == ArgumentException || o.error == GeneralException
    ensures files != [] && directories == {} ==> o == Fail(GeneralException)
  {
    if files == [] then Pass
    else match UnderDirectories(directories, registered, files[0].file)
      case Err(e) => Fail(e)
      case Ok(found) =>
        if !found then Fail(GeneralException)
        else
          var rest := DeletionCheck(files[1..], directories, registered);
          assert forall i :: 1 <= i < |files| ==> files[i] == files[1..][i - 1];
          rest
  }

  /// The inner loop of DeleteDuplicates: asks the index about each directory
  /// in turn until one holds the file.
  method IsFileFromIsolatedDuplicatesDir(controller: DC.DataControllerSimple, directories: set<FsEntity>, file: FileEntity)
    returns (r: Result<bool>)
    ensures r == UnderDirectories(directories, controller.files, file)
  {
    var remaining := directories;
    var isFileFromIsolatedDuplicatesDir := false;
    while remaining != {} && !isFileFromIsolatedDuplicatesDir
      invariant remaining <= directories
      invariant remaining == directories || file in controller.files
      invariant isFileFromIsolatedDuplicatesDir ==> file in controller.files
      invariant isFileFromIsolatedDuplicatesDir ==> exists d :: d in directories && IsAncestor(d, file)
      invariant !isFileFromIsolatedDuplicatesDir ==> forall d :: d in directories - remaining ==> !IsAncestor(d, file)
      decreases remaining
    {
      var isolatedDuplicatesDir :| isolatedDuplicatesDir in remaining;
      var fromDirectory := controller.IsFileFromDirectory(isolatedDuplicatesDir, file);
      if fromDirectory.Err? {
        return Err(fromDirectory.error);
      }
      if fromDirectory.value {
        isFileFromIsolatedDuplicatesDir := true;
      }
      remaining := remaining - {isolatedDuplicatesDir};
    }
    if !isFileFromIsolatedDuplicatesDir {
      assert directories - remaining == directories;
    }
    r := Ok(isFileFromIsolatedDuplicatesDir);
  }

  /// The first loop of DeleteDuplicates: every file checked before any is
  /// deleted, collected into a HashSet of references.
  method CheckFilesToDelete(controller: DC.DataControllerSimple, directories: set<FsEntity>, filesToDelete: seq<FileInfo>)
    returns (r: Result<seq<FileInfo>>)
    ensures r.Err? <==> DeletionCheck(filesToDelete, directories, controller.files).Fail?
    ensures r.Err? ==> r.error == DeletionCheck(filesToDelete, directories, controller.files).error
    ensures r.Ok? ==> r.value == Distinct(filesToDelete)
  {
    var filesSuitableForDeletion := [];
    for i := 0 to |filesToDelete|
      invariant DeletionCheck(filesToDelete, directories, controller.files) == DeletionCheck(filesToDelete[i..], directories, controller.files)
      invariant filesSuitableForDeletion == Distinct(filesToDelete[..i])
    {
      var duplicate := filesToDelete[i];
      assert filesToDelete[i..][1..] == filesToDelete[i + 1..];
      assert filesToDelete[..i + 1][..i] == filesToDelete[..i];
      var isFileFromIsolatedDuplicatesDir := IsFileFromIsolatedDuplicatesDir(controller, directories, duplicate.file);
      if isFileFromIsolatedDuplicatesDir.Err? {
        return Err(isFileFromIsolatedDuplicatesDir.error);
      }
      if !isFileFromIsolatedDuplicatesDir.value {
        return Err(GeneralException);
      }
      filesSuitableForDeletion := Append(filesSuitableForDeletion, duplicate, true);
    }
    assert filesToDelete[..|filesToDelete|] == filesToDelete;
    r := Ok(filesSuitableForDeletion);
  }

  /// The FileInfos whose file the file system deletes, in order.
  function Deleted(infos: seq<FileInfo>, fs: FileSystem): (r: seq<FileInfo>)
    ensures forall i :: 0 <= i < |r| ==> r[i] in infos && fs.deleteFile(r[i].file)
    ensures forall i :: 0 <= i < |infos| && fs.deleteFile(infos[i].file) ==> infos[i] in r
  {
    if infos == [] then []
    else
      var last := infos[|infos| - 1];
      Deleted(infos[..|infos| - 1], fs) + if fs.deleteFile(last.file) then [last] else []
  }

  /// The files of the FileInfos.
  function FileSet(infos: seq<FileInfo>): set<FileEntity> {
    set f | f in infos :: f.file
  }

  /// What the report is told about FileInfos it loses, in order.
  function Removals(infos: seq<FileInfo>): (r: seq<ReportChange>)
    ensures |r| == |infos| && forall i :: 0 <= i < |infos| ==> r[i] == FileInfoRemoved(infos[i])
  {
    if infos == [] then [] else Removals(infos[..|infos| - 1]) + [FileInfoRemoved(infos[|infos| - 1])]
  }

  /// The last state of the file, as a set to modify.
  function LastStateSet(states: seq<FileState>, file: FsEntity): set<FileState> {
    if LastFileState(states, file).Some? then {LastFileState(states, file).value} else {}
  }

  /// The last state of the file marks it as removed, with the broken blob.
  ghost predicate LastStateRemoved(states: seq<FileState>, file: FsEntity)
    reads set s | s in states
  {
    LastFileState(states, file).Some? && LastFileState(states, file).value.status == Removed &&
    LastFileState(states, file).value.blobInfo == Some(Broken)
  }

  /// The state is the last state of one of the files.
  ghost predicate IsLastStateOf(s: FileState, states: seq<FileState>, files: set<FileEntity>) {
    exists f :: f in files && LastFileState(states, f) == Some(s)
  }

  /// The bookkeeping of deleting files: they are no longer registered,
  /// their last states are marked removed, the report loses their
  /// FileInfos, and nothing else changes (no state's previous state either).
  twostate predicate DeletionRecorded(controller: DC.DataControllerSimple, report: ProcessorReport, deleted: seq<FileInfo>)
    reads controller, report, set s | s in controller.fileStates
  {
    controller.fileStates == old(controller.fileStates) &&
    controller.files == old(controller.files) - FileSet(deleted) &&
    controller.directories == old(controller.directories) &&
    controller.dataLocations == old(controller.dataLocations) &&
    controller.inspections == old(controller.inspections) &&
    controller.blobInfos == old(controller.blobInfos) &&
    report.changes == old(report.changes) + Removals(deleted) &&
    (forall f :: f in FileSet(deleted) ==> LastStateRemoved(controller.fileStates, f)) &&
    (forall s :: s in controller.fileStates ==> s.previousState == old(s.previousState)) &&
    forall s :: s in controller.fileStates && !IsLastStateOf(s, controller.fileStates, FileSet(deleted)) ==>
      s.status == old(s.status) && s.blobInfo == old(s.blobInfo)
  }

  /// One step of the deletion loop: a file the file system fails to delete
  /// is skipped; a deleted one is unregistered, its last state marked
  /// removed, and its FileInfo taken out of the report. A deleted file
  /// with no state throws.
  method DeleteFile(controller: DC.DataControllerSimple, report: ProcessorReport, duplicateInfo: FileInfo, fs: FileSystem)
    returns (r: Result<bool>)
    modifies controller, report, LastStateSet(controller.fileStates, duplicateInfo.file)
    ensures r == if !fs.deleteFile(duplicateInfo.file) then Ok(false)
                 else if LastFileState(old(controller.fileStates), duplicateInfo.file).None? then Err(NullReferenceException)
                 else Ok(true)
    ensures r == Ok(false) ==> DeletionRecorded(controller, report, [])
    ensures r == Ok(true) ==> DeletionRecorded(controller, report, [duplicateInfo])
  {
    var fileToRemove := duplicateInfo.file;
    var isRemoved := fs.deleteFile(fileToRemove);
    if !isRemoved {
      assert FileSet([]) == {};
      return Ok(false);
    }
    RemoveFile(controller, fileToRemove);
    var lastFileState := LastFileState(controller.fileStates, fileToRemove);
    if lastFileState.None? {
      return Err(NullReferenceException);
    }
    lastFileState.value.SetStatusAndBlobInfo(Removed, Some(Broken));
    report.RemoveFileInfo(duplicateInfo);
    assert FileSet([duplicateInfo]) == {fileToRemove};
    forall s | s in controller.fileStates && !IsLastStateOf(s, controller.fileStates, {fileToRemove})
      ensures s.status == old(s.status) && s.blobInfo == old(s.blobInfo)
    {
      assert s != lastFileState.value;
    }
    r := Ok(true);
  }

  /// What deletion may touch in the registry and the report, as it was
  /// before a run of deletions started.
  datatype Snapshot = Snapshot(files: set<FileEntity>, directories: set<FsEntity>, dataLocations: seq<DataLocation>,
                               inspections: seq<Inspection>, fileStates: seq<FileState>, blobInfos: set<BlobInfo>,
                               changes: seq<ReportChange>, statuses: map<FileState, (FileStatus, Option<BlobInfo>)>,
                               previous: map<FileState, FileState?>)

  ghost function Snap(controller: DC.DataControllerSimple, report: ProcessorReport): Snapshot
    reads controller, report, set s | s in controller.fileStates
  {
    Snapshot(controller.files, controller.directories, controller.dataLocations, controller.inspections,
             controller.fileStates, controller.blobInfos, report.changes,
             map s | s in controller.fileStates :: (s.status, s.blobInfo),
             map s | s in controller.fileStates :: s.previousState)
  }

  /// DeletionRecorded, measured from a snapshot instead of the previous state.
  ghost predicate RecordedSince(controller: DC.DataControllerSimple, report: ProcessorReport, snap: Snapshot,
                                deleted: seq<FileInfo>)
    reads controller, report, set s | s in controller.fileStates
  {
    controller.fileStates == snap.fileStates &&
    controller.files == snap.files - FileSet(deleted) &&
    controller.directories == snap.directories &&
    controller.dataLocations == snap.dataLocations &&
    controller.inspections == snap.inspections &&
    controller.blobInfos == snap.blobInfos &&
    report.changes == snap.changes + Removals(deleted) &&
    (forall f :: f in FileSet(deleted) ==> LastStateRemoved(controller.fileStates, f)) &&
    forall s :: s in controller.fileStates && !IsLastStateOf(s, controller.fileStates, FileSet(deleted)) ==>
      s in snap.statuses && snap.statuses[s] == (s.status, s.blobInfo)
  }

  /// No state's previous state has changed since the snapshot.
  ghost predicate PreviousKept(controller: DC.DataControllerSimple, snap: Snapshot)
    reads controller, set s | s in controller.fileStates
  {
    forall s :: s in controller.fileStates ==> s in snap.previous && snap.previous[s] == s.previousState
  }

  lemma {:induction false} RecordedFromSnap(controller: DC.DataControllerSimple, report: ProcessorReport)
    ensures RecordedSince(controller, report, Snap(controller, report), [])
  {
    assert FileSet([]) == {};
  }

  lemma {:induction false} FileSetAppend(a: seq<FileInfo>, b: seq<FileInfo>)
    ensures FileSet(a + b) == FileSet(a) + FileSet(b)
  {
    forall f | f in FileSet(a + b) ensures f in FileSet(a) + FileSet(b) {
      var i :| i in a + b && i.file == f;
    }
  }

  lemma {:induction false} RemovalsAppend(a: seq<FileInfo>, b: seq<FileInfo>)
    ensures Removals(a + b) == Removals(a) + Removals(b)
  {
    var r := Removals(a + b);
    assert forall i :: 0 <= i < |a| ==> r[i] == FileInfoRemoved((a + b)[i]) == Removals(a)[i];
    assert forall i :: |a| <= i < |a + b| ==> r[i] == FileInfoRemoved((a + b)[i]) == Removals(b)[i - |a|];
  }

  /// A state that is the last state of none of the files of a union is the
  /// last state of none of the files of either part.
  lemma {:induction false} NotLastStateOfUnion(s: FileState, states: seq<FileState>, a: set<FileEntity>, b: set<FileEntity>)
    requires !IsLastStateOf(s, states, a + b)
    ensures !IsLastStateOf(s, states, a) && !IsLastStateOf(s, states, b)
  {
    forall f | f in a || f in b ensures LastFileState(states, f) != Some(s) {
      assert f in a + b;
    }
  }

  /// DeleteFile, with the record of the deletions before it carried on.
  method DeleteNext(controller: DC.DataControllerSimple, report: ProcessorReport, ghost snap: Snapshot,
                    ghost removed: seq<FileInfo>, duplicateInfo: FileInfo, fs: FileSystem)
    returns (r: Result<bool>)
    requires RecordedSince(controller, report, snap, removed) && PreviousKept(controller, snap)
    modifies controller, report, set s | s in controller.fileStates
    ensures r == if !fs.deleteFile(duplicateInfo.file) then Ok(false)
                 else if LastFileState(snap.fileStates, duplicateInfo.file).None? then Err(NullReferenceException)
                 else Ok(true)
    ensures r.Ok? ==> RecordedSince(controller, report, snap, removed + if r.value then [duplicateInfo] else [])
    ensures r.Ok? ==> PreviousKept(controller, snap)
  {
    r := DeleteFile(controller, report, duplicateInfo, fs);
    if r.Ok? {
      ghost var step := if r.value then [duplicateInfo] else [];
      ghost var states := controller.fileStates;
      FileSetAppend(removed, step);
      assert controller.files == snap.files - FileSet(removed + step);
      RemovalsAppend(removed, step);
      assert report.changes == snap.changes + Removals(removed + step);
      forall f | f in FileSet(removed)
        ensures LastStateRemoved(states, f)
      {
        assert old(LastStateRemoved(states, f));
        var last := LastFileState(states, f).value;
        if !IsLastStateOf(last, states, FileSet(step)) {
          assert last.status == old(last.status);
        }
      }
      forall s | s in states && !IsLastStateOf(s, states, FileSet(removed + step))
        ensures s in snap.statuses && snap.statuses[s] == (s.status, s.blobInfo)
      {
        NotLastStateOfUnion(s, states, FileSet(removed), FileSet(step));
      }
    }
  }

  /// Every file of infos that the file system deletes has a state.
  predicate StatesForDeleted(infos: seq<FileInfo>, states: seq<FileState>, fs: FileSystem) {
    forall j :: 0 <= j < |infos| && fs.deleteFile(infos[j].file) ==> LastFileState(states, infos[j].file).Some?
  }

  lemma {:induction false} StatesForDeletedSnoc(infos: seq<FileInfo>, d: FileInfo, states: seq<FileState>, fs: FileSystem)
    requires StatesForDeleted(infos, states, fs)
    requires fs.deleteFile(d.file) ==> LastFileState(states, d.file).Some?
    ensures StatesForDeleted(infos + [d], states, fs)
  {
    forall j | 0 <= j < |infos + [d]| && fs.deleteFile((infos + [d])[j].file)
      ensures LastFileState(states, (infos + [d])[j].file).Some?
    {
      if j < |infos| {
        assert (infos + [d])[j] == infos[j];
      }
    }
  }

  /// The second loop of DeleteDuplicates: each file deleted in turn. The
  /// result holds exactly the files the file system deleted; a deleted file
  /// with no state throws.
  method DeleteFiles(controller: DC.DataControllerSimple, report: ProcessorReport, filesSuitableForDeletion: seq<FileInfo>,
                     fs: FileSystem)
    returns (r: Result<seq<FileInfo>>)
    modifies controller, report, set s | s in controller.fileStates
    ensures r.Err? <==> exists i :: (0 <= i < |filesSuitableForDeletion| &&
      fs.deleteFile(filesSuitableForDeletion[i].file) &&
      LastFileState(old(controller.fileStates), filesSuitableForDeletion[i].file).None?)
    ensures r.Err? ==> r.error == NullReferenceException
    ensures r.Ok? ==> r.value == Deleted(filesSuitableForDeletion, fs) && DeletionRecorded(controller, report, r.value)
  {
    ghost var snap := Snap(controller, report);
    RecordedFromSnap(controller, report);
    r := DeleteEach(controller, report, snap, filesSuitableForDeletion, fs);
    if r.Ok? {
      forall s | s in controller.fileStates && !IsLastStateOf(s, controller.fileStates, FileSet(r.value))
        ensures s.status == old(s.status) && s.blobInfo == old(s.blobInfo)
      {
        assert s in old(controller.fileStates);
      }
    }
  }

  /// The loop of DeleteFiles, measured from a snapshot of the state before it.
  method DeleteEach(controller: DC.DataControllerSimple, report: ProcessorReport, ghost snap: Snapshot,
                    filesSuitableForDeletion: seq<FileInfo>, fs: FileSystem)
    returns (r: Result<seq<FileInfo>>)
    requires RecordedSince(controller, report, snap, []) && PreviousKept(controller, snap)
    modifies controller, report, set s | s in controller.fileStates
    ensures r.Err? <==> exists i :: (0 <= i < |filesSuitableForDeletion| &&
      fs.deleteFile(filesSuitableForDeletion[i].file) &&
      LastFileState(snap.fileStates, filesSuitableForDeletion[i].file).None?)
    ensures r.Err? ==> r.error == NullReferenceException
    ensures r.Ok? ==> (r.value == Deleted(filesSuitableForDeletion, fs) &&
                       RecordedSince(controller, report, snap, r.value) && PreviousKept(controller, snap))
  {
    var removedDuplicatesInfo := [];
    for i := 0 to |filesSuitableForDeletion|
      invariant removedDuplicatesInfo == Deleted(filesSuitableForDeletion[..i], fs)
      invariant StatesForDeleted(filesSuitableForDeletion[..i], snap.fileStates, fs)
      invariant RecordedSince(controller, report, snap, removedDuplicatesInfo) && PreviousKept(controller, snap)
    {
      var duplicateInfo := filesSuitableForDeletion[i];
      assert filesSuitableForDeletion[..i + 1] == filesSuitableForDeletion[..i] + [duplicateInfo];
      var isRemoved := DeleteNext(controller, report, snap, removedDuplicatesInfo, duplicateInfo, fs);
      if isRemoved.Err? {
        return Err(isRemoved.error);
      }
      StatesForDeletedSnoc(filesSuitableForDeletion[..i], duplicateInfo, snap.fileStates, fs);
      if isRemoved.value {
        removedDuplicatesInfo := removedDuplicatesInfo + [duplicateInfo];
      } else {
        assert removedDuplicatesInfo + [] == removedDuplicatesInfo;
      }
    }
    assert filesSuitableForDeletion[..|filesSuitableForDeletion|] == filesSuitableForDeletion;
    r := Ok(removedDuplicatesInfo);
  }

  /// Deletes the given duplicates, provided every one of them lies in a
  /// folder for isolated duplicates that exists on disk under one of the
  /// report's data locations: otherwise nothing is touched and the first
  /// offending file decides the exception. The result lists the files the
  /// file system deleted, each once.
  method DeleteDuplicates(controller: DC.DataControllerSimple, report: ProcessorReport, filesToDelete: seq<FileInfo>,
                          fs: FileSystem)
    returns (r: Result<seq<FileInfo>>)
    modifies controller, report, set s | s in controller.fileStates
    ensures var check := DeletionCheck(filesToDelete, DirectoriesOnDisk(report.dataLocations, fs), old(controller.files));
      check.Fail? ==> r == Err(check.error) && unchanged(controller, report) &&
                      forall s :: s in controller.fileStates ==> unchanged(s)
    ensures var check := DeletionCheck(filesToDelete, DirectoriesOnDisk(report.dataLocations, fs), old(controller.files));
      check.Pass? ==>
        (r.Err? <==> exists i :: (0 <= i < |filesToDelete| && fs.deleteFile(filesToDelete[i].file) &&
                                  LastFileState(old(controller.fileStates), filesToDelete[i].file).None?)) &&
        (r.Err? ==> r.error == NullReferenceException) &&
        (r.Ok? ==> r.value == Deleted(Distinct(filesToDelete), fs) && DeletionRecorded(controller, report, r.value))
  {
    var directoriesForIsolatedDuplicates := GetDirectoriesOnDisk(report.dataLocations, fs);
    var checked := CheckFilesToDelete(controller, directoriesForIsolatedDuplicates, filesToDelete);
    if checked.Err? {
      return Err(checked.error);
    }
    var filesSuitableForDeletion := checked.value;
    r := DeleteFiles(controller, report, filesSuitableForDeletion, fs);
    DistinctElements(filesToDelete);
    if r.Err? {
      ghost var i :| 0 <= i < |filesSuitableForDeletion| && fs.deleteFile(filesSuitableForDeletion[i].file) &&
               LastFileState(old(controller.fileStates), filesSuitableForDeletion[i].file).None?;
      assert filesSuitableForDeletion[i] in filesToDelete;
    } else {
      forall i | 0 <= i < |filesToDelete| && fs.deleteFile(filesToDelete[i].file)
        ensures LastFileState(old(controller.fileStates), filesToDelete[i].file).Some?
      {
        assert filesToDelete[i] in filesSuitableForDeletion;
      }
    }
  }
}
