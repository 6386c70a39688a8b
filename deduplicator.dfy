/// OrdinaryDumpDeduplicator: the inspection of a data location (scan, file
/// attributes, content hashes) and the lookup of the location of a root
/// directory. The file system and the clock are reached only through the
/// calls bundled in Environment.
module Deduplicator {
  import opened DotNet
  import opened BlobInfos
  import opened FsEntities
  import opened DataLocations
  import opened Inspections
  import opened FileStates
  import DC = DataController

  /// What System.IO.FileInfo reports for a file: its length and its creation
  /// and last-write times, as tick counts.
  datatype Attributes = Attributes(length: int64, creationTime: int, lastWriteTime: int)

  /// The points at which DateTime.Now is read.
  datatype Moment = InspectionStart | AttributesFailed(file: FileEntity) | InspectionFinish

  /// The outside world: FsUtils.IndexSubDirectoriesAndFiles (the root
  /// directory tree and the list of all files), System.IO.FileInfo,
  /// FsUtils.ComputeSha1Hash (the digest and the file length) and the clock.
  /// Each call that can throw yields a Result.
  datatype Environment = Environment(
    indexSubDirectoriesAndFiles: string -> Result<(DC.DirectoryTree, seq<FileEntity>)>,
    fileInfo: FileEntity -> Result<Attributes>,
    computeSha1Hash: FileEntity -> Result<(seq<bv8>, int64)>,
    now: Moment -> int)

  // ---------------------------------------------------------------------------
  // Unchecked Int32 and Int64 arithmetic

  const TwoTo32: int := 0x1_0000_0000
  const TwoTo64: int := 0x1_0000_0000_0000_0000

  /// The Int32 an unchecked computation of x yields.
  function WrapInt32(x: int): (r: int32)
    ensures -0x8000_0000 <= x < 0x8000_0000 ==> r == x
    ensures (x - r) % TwoTo32 == 0
  {
    (x + 0x8000_0000) % TwoTo32 - 0x8000_0000
  }

  /// The Int64 an unchecked computation of x yields.
  function WrapInt64(x: int): (r: int64)
    ensures -0x8000_0000_0000_0000 <= x < 0x8000_0000_0000_0000 ==> r == x
    ensures (x - r) % TwoTo64 == 0
  {
    (x + 0x8000_0000_0000_0000) % TwoTo64 - 0x8000_0000_0000_0000
  }

  /// The remainder modulo 2^32 is the one a decomposition names.
  lemma RemainderInt32(w: int, k: int, r: int)
    requires w == k * TwoTo32 + r && 0 <= r < TwoTo32
    ensures w % TwoTo32 == r
  {
  }

  /// The remainder modulo 2^64 is the one a decomposition names.
  lemma RemainderInt64(w: int, k: int, r: int)
    requires w == k * TwoTo64 + r && 0 <= r < TwoTo64
    ensures w % TwoTo64 == r
  {
  }

  /// Adding to a wrapped Int32 wraps like adding to the exact value.
  lemma {:induction false} WrapInt32Add(x: int, d: int)
    ensures WrapInt32(WrapInt32(x) + d) == WrapInt32(x + d)
  {
    var y := x + 0x8000_0000;
    var z := y % TwoTo32 + d;
    RemainderInt32(y, y / TwoTo32, y % TwoTo32);
    RemainderInt32(z, z / TwoTo32, z % TwoTo32);
    RemainderInt32(y + d, y / TwoTo32 + z / TwoTo32, z % TwoTo32);
  }

  /// Adding to a wrapped Int64 wraps like adding to the exact value.
  lemma {:induction false} WrapInt64Add(x: int, d: int)
    ensures WrapInt64(WrapInt64(x) + d) == WrapInt64(x + d)
  {
    var y := x + 0x8000_0000_0000_0000;
    var z := y % TwoTo64 + d;
    RemainderInt64(y, y / TwoTo64, y % TwoTo64);
    RemainderInt64(z, z / TwoTo64, z % TwoTo64);
    RemainderInt64(y + d, y / TwoTo64 + z / TwoTo64, z % TwoTo64);
  }

  // ---------------------------------------------------------------------------
  // Counting the available files

  /// What CountFilesAndSize reads from a file state.
  datatype Observed = Observed(status: FileStatus, size: int64)

  /// The file states as CountFilesAndSize reads them.
  function ObservedOf(states: seq<FileState>): (r: seq<Observed>)
    reads set s | s in states
    ensures |r| == |states|
    ensures forall i :: 0 <= i < |states| ==> r[i] == Observed(states[i].status, states[i].size)
  {
    if states == [] then []
    else
      var s := states[|states| - 1];
      ObservedOf(states[..|states| - 1]) + [Observed(s.status, s.size)]
  }

  /// A file that can be read and has content: neither Error nor Unreadable,
  /// with a positive size.
  predicate IsAvailable(o: Observed) {
    o.status != Error && o.status != Unreadable && o.size > 0
  }

  /// The number of available files.
  function AvailableCount(observed: seq<Observed>): nat {
    if observed == [] then 0
    else
      var last := observed[|observed| - 1];
      AvailableCount(observed[..|observed| - 1]) + if IsAvailable(last) then 1 else 0
  }

  /// The total size of the available files.
  function AvailableSize(observed: seq<Observed>): int {
    if observed == [] then 0
    else
      var last := observed[|observed| - 1];
      AvailableSize(observed[..|observed| - 1]) + if IsAvailable(last) then last.size else 0
  }

  /// At most every file is counted, and each counted file adds at least one
  /// byte, so the total size is never below the count.
  lemma {:induction false} AvailableBounds(observed: seq<Observed>)
    ensures AvailableCount(observed) <= |observed|
    ensures AvailableCount(observed) <= AvailableSize(observed)
  {
    if observed != [] {
      AvailableBounds(observed[..|observed| - 1]);
    }
  }

  /// What GetAttributesOfFiles records for a file, as CountFilesAndSize reads
  /// it: Unknown with the reported length, or Error with size -1.
  function AttributedObserved(attributes: Result<Attributes>): Observed {
    if attributes.Ok? then Observed(Unknown, attributes.value.length) else Observed(Error, -1)
  }

  /// The observations of the states GetAttributesOfFiles creates for files.
  function AttributedObservations(files: seq<FileEntity>, fileInfo: FileEntity -> Result<Attributes>): (r: seq<Observed>)
    ensures |r| == |files|
    ensures forall i :: 0 <= i < |files| ==> r[i] == AttributedObserved(fileInfo(files[i]))
  {
    if files == [] then []
    else AttributedObservations(files[..|files| - 1], fileInfo) + [AttributedObserved(fileInfo(files[|files| - 1]))]
  }

  /// The files whose attributes could be read and report content.
  function ReadableFiles(files: seq<FileEntity>, fileInfo: FileEntity -> Result<Attributes>): seq<FileEntity> {
    if files == [] then []
    else
      var f := files[|files| - 1];
      ReadableFiles(files[..|files| - 1], fileInfo) +
        if fileInfo(f).Ok? && fileInfo(f).value.length > 0 then [f] else []
  }

  /// The sum of the lengths reported for files.
  function TotalLength(files: seq<FileEntity>, fileInfo: FileEntity -> Result<Attributes>): int {
    if files == [] then 0
    else
      var f := files[|files| - 1];
      TotalLength(files[..|files| - 1], fileInfo) + if fileInfo(f).Ok? then fileInfo(f).value.length else 0
  }

  /// Right after the attributes are collected, CountFilesAndSize counts
  /// exactly the files whose attributes were read and report a positive
  /// length, and sums exactly their lengths: a file whose attributes failed
  /// never contributes.
  lemma {:induction false} AttributedAvailability(files: seq<FileEntity>, fileInfo: FileEntity -> Result<Attributes>)
    ensures AvailableCount(AttributedObservations(files, fileInfo)) == |ReadableFiles(files, fileInfo)|
    ensures AvailableSize(AttributedObservations(files, fileInfo)) == TotalLength(ReadableFiles(files, fileInfo), fileInfo)
  {
    if files != [] {
      var init := files[..|files| - 1];
      var f := files[|files| - 1];
      AttributedAvailability(init, fileInfo);
      var observed := AttributedObservations(files, fileInfo);
      assert observed[..|observed| - 1] == AttributedObservations(init, fileInfo);
      var readable := ReadableFiles(init, fileInfo);
      if fileInfo(f).Ok? && fileInfo(f).value.length > 0 {
        assert ReadableFiles(files, fileInfo) == readable + [f];
        assert (readable + [f])[..|readable|] == readable;
      } else {
        assert ReadableFiles(files, fileInfo) == readable;
      }
    }
  }

  // ---------------------------------------------------------------------------
  // Progress counters

  /// The last value a progress counter expects: an IntegerSingleValue (a
  /// count) or an IntegerDoubleValue (a size and a count).
  datatype ProgressValue = SingleValue(value: int) | DoubleValue(value1: int, value2: int)

  /// CheckIsNotNull: a single value is not zero; a double value has neither
  /// part zero.
  predicate IsNotNull(v: ProgressValue) {
    if v.SingleValue? then v.value != 0 else v.value1 != 0 && v.value2 != 0
  }

  /// OperationProgressCounter.Initialize: refuses a last expected value that
  /// is zero with ArgumentException; what it records otherwise only reports
  /// progress.
  function InitializeProgress(lastExpectedValue: ProgressValue): Outcome {
    if IsNotNull(lastExpectedValue) then Pass else Fail(ArgumentException)
  }

  /// The last value the hashing counter of an inspection expects: the total
  /// length and the number of the readable files with content, wrapped as
  /// CountFilesAndSize wraps them.
  function HashingTotal(files: seq<FileEntity>, fileInfo: FileEntity -> Result<Attributes>): ProgressValue {
    var readable := ReadableFiles(files, fileInfo);
    DoubleValue(WrapInt64(TotalLength(readable, fileInfo)), WrapInt32(|readable|))
  }

  /// Both progress counters of an inspection accept their last expected
  /// values: the attributes counter expects one step per file, the hashing
  /// counter the total of the readable files.
  predicate CountersAccept(files: seq<FileEntity>, fileInfo: FileEntity -> Result<Attributes>) {
    IsNotNull(SingleValue(|files|)) && IsNotNull(HashingTotal(files, fileInfo))
  }

  /// Only readable files with content are counted, and each adds at least
  /// one byte.
  lemma {:induction false} ReadableBounds(files: seq<FileEntity>, fileInfo: FileEntity -> Result<Attributes>)
    ensures |ReadableFiles(files, fileInfo)| <= |files|
    ensures |ReadableFiles(files, fileInfo)| <= TotalLength(ReadableFiles(files, fileInfo), fileInfo)
  {
    AttributedAvailability(files, fileInfo);
    AvailableBounds(AttributedObservations(files, fileInfo));
  }

  /// An inspection with no file, or with no readable file with content, is
  /// refused by a progress counter; short of wrap-around, every other one is
  /// accepted.
  lemma CountersAcceptReadable(files: seq<FileEntity>, fileInfo: FileEntity -> Result<Attributes>)
    ensures ReadableFiles(files, fileInfo) == [] ==> !CountersAccept(files, fileInfo)
    ensures var readable := ReadableFiles(files, fileInfo);
      readable != [] && |readable| < 0x8000_0000 && TotalLength(readable, fileInfo) < 0x8000_0000_0000_0000 ==>
        CountersAccept(files, fileInfo)
  {
    ReadableBounds(files, fileInfo);
  }

  // ---------------------------------------------------------------------------
  // Hashing

  /// The blob the try block of ComputeAndSaveBlobInfo builds: BlobInfo.Create
  /// of the length and digest the hashing call reports, or what was thrown.
  function HashedBlob(hash: Result<(seq<bv8>, int64)>): Result<BlobInfo> {
    if hash.Err? then Err(hash.error) else Create(hash.value.1, Some(hash.value.0))
  }

  /// The blob ComputeAndSaveBlobInfo returns: the built blob, or Broken
  /// whatever was thrown, by the hashing call or by BlobInfo.Create.
  function SavedBlob(hash: Result<(seq<bv8>, int64)>): (b: BlobInfo)
    ensures hash.Err? ==> b == Broken
    ensures hash.Ok? && hash.value.1 < 0 ==> b == Broken
    ensures hash.Ok? && hash.value.1 == 0 ==> b == Empty
    ensures hash.Ok? && 0 < hash.value.1 && |hash.value.0| == DigestLength ==> b == BlobInfo(hash.value.1, hash.value.0)
    ensures hash.Ok? && 0 < hash.value.1 && |hash.value.0| != DigestLength ==> b == Broken
  {
    var built := HashedBlob(hash);
    if built.Ok? then built.value else Broken
  }

  /// What ComputeHashesOfFiles, as written, records for a state: New and the
  /// saved blob. ComputeAndSaveBlobInfo never throws, so the catch block that
  /// would record Unreadable is never reached.
  function HashedStateAsWritten(hash: Result<(seq<bv8>, int64)>): (FileStatus, BlobInfo) {
    (New, SavedBlob(hash))
  }

  /// What ComputeHashesOfFiles evidently means to record: New and the blob
  /// when the file could be hashed, Unreadable and Broken when it could not.
  function HashedState(hash: Result<(seq<bv8>, int64)>): (r: (FileStatus, BlobInfo))
    ensures r.0 == New <==> HashedBlob(hash).Ok?
    ensures r.0 == Unreadable <==> HashedBlob(hash).Err?
    ensures r.1 == SavedBlob(hash)
  {
    var built := HashedBlob(hash);
    if built.Ok? then (New, built.value) else (Unreadable, Broken)
  }

  /// The discrepancy: a file whose hashing throws is recorded as New, not as
  /// Unreadable, so no state ever becomes Unreadable.
  lemma UnreadableNeverRecorded(hash: Result<(seq<bv8>, int64)>)
    requires HashedBlob(hash).Err?
    ensures HashedStateAsWritten(hash) == (New, Broken)
    ensures HashedState(hash) == (Unreadable, Broken)
  {
  }

  /// Both readings agree on the blob, and on the status of every file that
  /// could be hashed.
  lemma {:induction false} HashedStatesAgree(hash: Result<(seq<bv8>, int64)>)
    ensures HashedState(hash).1 == HashedStateAsWritten(hash).1
    ensures HashedState(hash) == HashedStateAsWritten(hash) <==> HashedBlob(hash).Ok?
  {
  }

  /// The blobs saved while hashing the files of states.
  function SavedBlobs(states: seq<FileState>, env: Environment): set<BlobInfo> {
    if states == [] then {}
    else SavedBlobs(states[..|states| - 1], env) + {SavedBlob(env.computeSha1Hash(states[|states| - 1].file))}
  }

  /// The blobs registered while hashing the files of states when failures
  /// are reported: only those built without an exception.
  function HashedBlobs(states: seq<FileState>, env: Environment): set<BlobInfo> {
    if states == [] then {}
    else
      var built := HashedBlob(env.computeSha1Hash(states[|states| - 1].file));
      HashedBlobs(states[..|states| - 1], env) + if built.Ok? then {built.value} else {}
  }

  // ---------------------------------------------------------------------------
  // The states of one inspection

  /// The fixed part of the state GetAttributesOfFiles creates for a file:
  /// the file, the inspection, and the reported size and times, or size -1
  /// and the time of the failure for both dates.
  predicate Recorded(s: FileState, file: FileEntity, inspection: Inspection, attributes: Result<Attributes>, failedAt: int) {
    s.file == file && s.inspection == inspection &&
    s.size == (if attributes.Ok? then attributes.value.length else -1) &&
    s.creationDate == (if attributes.Ok? then attributes.value.creationTime else failedAt) &&
    s.modificationDate == (if attributes.Ok? then attributes.value.lastWriteTime else failedAt)
  }

  /// The state GetAttributesOfFiles creates for a file: recorded as above,
  /// with no previous state, and Unknown without a blob when the attributes
  /// could be read, Error with the Broken blob otherwise.
  predicate Attributed(s: FileState, file: FileEntity, inspection: Inspection, attributes: Result<Attributes>, failedAt: int)
    reads s
  {
    Recorded(s, file, inspection, attributes, failedAt) && s.previousState == null &&
    if attributes.Ok? then s.status == Unknown && s.blobInfo.None? else s.status == Error && s.blobInfo == Some(Broken)
  }

  /// The states GetAttributesOfFiles creates for files, one per file in order.
  predicate AllAttributed(states: seq<FileState>, files: seq<FileEntity>, inspection: Inspection, env: Environment)
    reads set s | s in states
  {
    |states| == |files| &&
    forall i :: 0 <= i < |states| ==>
      Attributed(states[i], files[i], inspection, env.fileInfo(files[i]), env.now(AttributesFailed(files[i])))
  }

  /// A state as ComputeHashesOfFiles, as written, leaves it: New, with the
  /// blob ComputeAndSaveBlobInfo saved for its file.
  predicate HashedAsWritten(s: FileState, env: Environment)
    reads s
  {
    var hashed := HashedStateAsWritten(env.computeSha1Hash(s.file));
    s.status == hashed.0 && s.blobInfo == Some(hashed.1)
  }

  /// A state as ComputeHashesOfFiles evidently means to leave it: with the
  /// status and blob HashedState gives its file.
  predicate Hashed(s: FileState, env: Environment)
    reads s
  {
    var hashed := HashedState(env.computeSha1Hash(s.file));
    s.status == hashed.0 && s.blobInfo == Some(hashed.1)
  }

  /// The states of an inspection once it is done: one per file, in the order
  /// of the files, each recorded as GetAttributesOfFiles recorded it, still
  /// without a previous state, and hashed.
  predicate Inspected(states: seq<FileState>, files: seq<FileEntity>, inspection: Inspection, env: Environment)
    reads set s | s in states
  {
    |states| == |files| &&
    forall i :: 0 <= i < |states| ==>
      Recorded(states[i], files[i], inspection, env.fileInfo(files[i]), env.now(AttributesFailed(files[i]))) &&
      states[i].previousState == null && Hashed(states[i], env)
  }

  /// The fixed part of every state of an inspection, which no later update
  /// of a state changes.
  predicate AllRecorded(states: seq<FileState>, files: seq<FileEntity>, inspection: Inspection, env: Environment) {
    |states| == |files| &&
    forall i :: 0 <= i < |states| ==>
      Recorded(states[i], files[i], inspection, env.fileInfo(files[i]), env.now(AttributesFailed(files[i])))
  }

  /// FsUtils.IndexSubDirectoriesAndFiles of a location's path.
  function Scan(env: Environment, dataLocation: DataLocation): Result<(DC.DirectoryTree, seq<FileEntity>)> {
    env.indexSubDirectoriesAndFiles(dataLocation.path)
  }

  /// The registers of the data controller that hashing leaves alone: all
  /// but the blobs.
  datatype Registers = Registers(files: set<FileEntity>, directories: set<FsEntity>, dataLocations: seq<DataLocation>,
                                 inspections: seq<Inspection>, fileStates: seq<FileState>)

  function Unhashed(c: DC.DataControllerSimple): Registers
    reads c
  {
    Registers(c.files, c.directories, c.dataLocations, c.inspections, c.fileStates)
  }

  /// The deduplicator: the data controller it owns, and the location of the
  /// last finished inspection.
  class OrdinaryDumpDeduplicator {
    const dataController: DC.DataControllerSimple
    var currentDataLocation: DataLocation?

    /// The constructor: a new, empty data controller and no current location.
    constructor ()
      ensures fresh(dataController) && currentDataLocation == null
      ensures dataController.dataLocations == [] && dataController.inspections == [] && dataController.fileStates == []
    {
      dataController := new DC.DataControllerSimple();
      currentDataLocation := null;
    }

    /// CountFilesAndSize: the number of available files, in Int32, and their
    /// total size, in Int64, both with unchecked wrap-around.
    static method CountFilesAndSize(statesOfFiles: seq<FileState>) returns (filesCount: int32, dataSize: int64)
      ensures filesCount == WrapInt32(AvailableCount(ObservedOf(statesOfFiles)))
      ensures dataSize == WrapInt64(AvailableSize(ObservedOf(statesOfFiles)))
    {
      ghost var observed := ObservedOf(statesOfFiles);
      filesCount := 0;
      dataSize := 0;
      for i := 0 to |statesOfFiles|
        invariant filesCount == WrapInt32(AvailableCount(observed[..i]))
        invariant dataSize == WrapInt64(AvailableSize(observed[..i]))
      {
        var fileState := statesOfFiles[i];
        assert observed[..i + 1][..i] == observed[..i];
        if fileState.status != Error && fileState.status != Unreadable && fileState.size > 0 {
          WrapInt32Add(AvailableCount(observed[..i]), 1);
          WrapInt64Add(AvailableSize(observed[..i]), fileState.size);
          filesCount := WrapInt32(filesCount + 1);
          dataSize := WrapInt64(dataSize + fileState.size);
        }
      }
      assert observed[..|statesOfFiles|] == observed;
    }

    /// GetDataLocation: a registered location whose root is the directory,
    /// or else a new location of the directory, registered.
    method GetDataLocation(directory: FsEntityNode) returns (dataLocation: DataLocation)
      requires directory.Linked()
      modifies dataController, directory.Ancestors()
      ensures dataLocation in dataController.dataLocations && dataLocation.directory == Some(directory.entity)
      ensures (exists l :: l in old(dataController.dataLocations) && l.directory == Some(directory.entity)) ==>
        dataLocation in old(dataController.dataLocations) && dataController.dataLocations == old(dataController.dataLocations)
      ensures (forall l :: l in old(dataController.dataLocations) ==> l.directory != Some(directory.entity)) ==>
        fresh(dataLocation) && directory.path == Some(dataLocation.path) &&
        dataController.dataLocations == old(dataController.dataLocations) + [dataLocation]
      ensures DC.DistinctRoots(old(dataController.dataLocations)) ==>
        DC.DistinctRoots(dataController.dataLocations) &&
        forall l :: l in old(dataController.dataLocations) && l.directory == Some(directory.entity) ==> dataLocation == l
      ensures dataController.files == old(dataController.files) && dataController.directories == old(dataController.directories)
      ensures dataController.inspections == old(dataController.inspections)
      ensures dataController.fileStates == old(dataController.fileStates) && dataController.blobInfos == old(dataController.blobInfos)
    {
      var dataLocations := dataController.GetDataLocations([directory.entity], false);
      if dataLocations.value != {} {
        dataLocation :| dataLocation in dataLocations.value;
      } else {
        dataLocation := new DataLocation.FromDirectory(directory);
        dataController.AddDataLocation(dataLocation);
      }
    }

    /// GetAttributesOfFiles: its progress counter refuses an empty list of
    /// files with ArgumentException before any state is created; otherwise
    /// one new state per file, as RecordAttributes creates them.
    method GetAttributesOfFiles(files: seq<FileEntity>, inspection: Inspection, env: Environment)
      returns (r: Result<seq<FileState>>)
      modifies dataController
      ensures r.Err? <==> files == []
      ensures r.Err? ==> r.error == ArgumentException && unchanged(dataController)
      ensures r.Ok? ==> (AllAttributed(r.value, files, inspection, env) && forall s :: s in r.value ==> fresh(s))
      ensures r.Ok? ==> ObservedOf(r.value) == AttributedObservations(files, env.fileInfo)
      ensures r.Ok? ==> dataController.fileStates == old(dataController.fileStates) + r.value
      ensures dataController.files == old(dataController.files) && dataController.directories == old(dataController.directories)
      ensures dataController.dataLocations == old(dataController.dataLocations)
      ensures dataController.inspections == old(dataController.inspections) && dataController.blobInfos == old(dataController.blobInfos)
    {
      var started := InitializeProgress(SingleValue(|files|));
      if started.Fail? {
        return Err(started.error);
      }
      var result := RecordAttributes(files, inspection, env);
      r := Ok(result);
    }

    /// The loop of GetAttributesOfFiles: one new state per file, in the order
    /// of the files, each registered with the data controller as it is
    /// created.
    method RecordAttributes(files: seq<FileEntity>, inspection: Inspection, env: Environment)
      returns (result: seq<FileState>)
      modifies dataController
      ensures |result| == |files|
      ensures forall i :: 0 <= i < |files| ==>
        fresh(result[i]) && Attributed(result[i], files[i], inspection, env.fileInfo(files[i]), env.now(AttributesFailed(files[i])))
      ensures forall i, j :: 0 <= i < j < |result| ==> result[i] != result[j]
      ensures ObservedOf(result) == AttributedObservations(files, env.fileInfo)
      ensures dataController.fileStates == old(dataController.fileStates) + result
      ensures dataController.files == old(dataController.files) && dataController.directories == old(dataController.directories)
      ensures dataController.dataLocations == old(dataController.dataLocations)
      ensures dataController.inspections == old(dataController.inspections) && dataController.blobInfos == old(dataController.blobInfos)
    {
      result := [];
      for i := 0 to |files|
        invariant |result| == i
        invariant forall k :: 0 <= k < i ==>
          fresh(result[k]) && Attributed(result[k], files[k], inspection, env.fileInfo(files[k]), env.now(AttributesFailed(files[k])))
        invariant forall k, j :: 0 <= k < j < i ==> result[k] != result[j]
        invariant dataController.fileStates == old(dataController.fileStates) + result
        invariant dataController.files == old(dataController.files) && dataController.directories == old(dataController.directories)
        invariant dataController.dataLocations == old(dataController.dataLocations)
        invariant dataController.inspections == old(dataController.inspections) && dataController.blobInfos == old(dataController.blobInfos)
      {
        var file := files[i];
        var fileState: FileState;
        var attributes := env.fileInfo(file);
        if attributes.Ok? {
          fileState := new FileState.WithoutBlob(file, inspection, null, attributes.value.length, Unknown,
                                                 attributes.value.creationTime, attributes.value.lastWriteTime);
        } else {
          var currentDateTime := env.now(AttributesFailed(file));
          fileState := new FileState(file, inspection, null, -1, Error, currentDateTime, currentDateTime, Some(Broken));
        }
        dataController.AddFileState(fileState);
        result := result + [fileState];
      }
      assert forall k :: 0 <= k < |files| ==> ObservedOf(result)[k] == AttributedObservations(files, env.fileInfo)[k];
    }

    /// ComputeAndSaveBlobInfo: the blob of the file's content, or Broken when
    /// hashing or building the blob throws; either way the blob is registered.
    method ComputeAndSaveBlobInfo(file: FileEntity, env: Environment) returns (blobInfo: BlobInfo)
      modifies dataController
      ensures blobInfo == SavedBlob(env.computeSha1Hash(file))
      ensures dataController.blobInfos == old(dataController.blobInfos) + {blobInfo}
      ensures Unhashed(dataController) == old(Unhashed(dataController))
    {
      var hash := env.computeSha1Hash(file);
      if hash.Ok? {
        var (sha1HashSum, fileLength) := hash.value;
        var created := Create(fileLength, Some(sha1HashSum));
        if created.Ok? {
          blobInfo := created.value;
        } else {
          blobInfo := Broken;
        }
      } else {
        blobInfo := Broken;
      }
      dataController.AddBlobInfo(blobInfo);
    }

    /// ComputeHashesOfFiles as written: every state becomes New with the
    /// saved blob, whether or not its file could be hashed.
    method ComputeHashesOfFilesAsWritten(statesOfFiles: seq<FileState>, env: Environment)
      modifies dataController, set s | s in statesOfFiles
      ensures forall i :: 0 <= i < |statesOfFiles| ==> HashedAsWritten(statesOfFiles[i], env)
      ensures forall i :: 0 <= i < |statesOfFiles| ==> statesOfFiles[i].previousState == old(statesOfFiles[i].previousState)
      ensures dataController.blobInfos == old(dataController.blobInfos) + SavedBlobs(statesOfFiles, env)
      ensures Unhashed(dataController) == old(Unhashed(dataController))
    {
      for i := 0 to |statesOfFiles|
        invariant forall k :: 0 <= k < i ==> HashedAsWritten(statesOfFiles[k], env)
        invariant forall k :: 0 <= k < |statesOfFiles| ==> statesOfFiles[k].previousState == old(statesOfFiles[k].previousState)
        invariant dataController.blobInfos == old(dataController.blobInfos) + SavedBlobs(statesOfFiles[..i], env)
        invariant Unhashed(dataController) == old(Unhashed(dataController))
      {
        var fileState := statesOfFiles[i];
        var blobInfo := ComputeAndSaveBlobInfo(fileState.file, env);
        fileState.SetStatusAndBlobInfo(New, Some(blobInfo));
        assert statesOfFiles[..i + 1][..i] == statesOfFiles[..i];
      }
      assert statesOfFiles[..|statesOfFiles|] == statesOfFiles;
    }

    /// ComputeAndSaveBlobInfo with the failure reported to the caller, as
    /// ComputeHashesOfFiles expects: the blob is registered only when it
    /// could be built.
    method TryComputeAndSaveBlobInfo(file: FileEntity, env: Environment) returns (r: Result<BlobInfo>)
      modifies dataController
      ensures r == HashedBlob(env.computeSha1Hash(file))
      ensures dataController.blobInfos == old(dataController.blobInfos) + (if r.Ok? then {r.value} else {})
      ensures Unhashed(dataController) == old(Unhashed(dataController))
    {
      var hash := env.computeSha1Hash(file);
      if hash.Err? {
        return Err(hash.error);
      }
      var (sha1HashSum, fileLength) := hash.value;
      r := Create(fileLength, Some(sha1HashSum));
      if r.Ok? {
        dataController.AddBlobInfo(r.value);
      }
    }

    /// ComputeHashesOfFiles: every state gets a blob; New with the blob of
    /// its content, or Unreadable with Broken when its file could not be
    /// hashed. Only the blobs that could be built are registered.
    method ComputeHashesOfFiles(statesOfFiles: seq<FileState>, env: Environment)
      modifies dataController, set s | s in statesOfFiles
      ensures forall i :: 0 <= i < |statesOfFiles| ==> Hashed(statesOfFiles[i], env)
      ensures forall i :: 0 <= i < |statesOfFiles| ==> statesOfFiles[i].previousState == old(statesOfFiles[i].previousState)
      ensures dataController.blobInfos == old(dataController.blobInfos) + HashedBlobs(statesOfFiles, env)
      ensures Unhashed(dataController) == old(Unhashed(dataController))
    {
      for i := 0 to |statesOfFiles|
        invariant forall k :: 0 <= k < i ==> Hashed(statesOfFiles[k], env)
        invariant forall k :: 0 <= k < |statesOfFiles| ==> statesOfFiles[k].previousState == old(statesOfFiles[k].previousState)
        invariant dataController.blobInfos == old(dataController.blobInfos) + HashedBlobs(statesOfFiles[..i], env)
        invariant Unhashed(dataController) == old(Unhashed(dataController))
      {
        var fileState := statesOfFiles[i];
        var fileStatus: FileStatus;
        var blobInfo: BlobInfo;
        var built := TryComputeAndSaveBlobInfo(fileState.file, env);
        if built.Ok? {
          blobInfo := built.value;
          fileStatus := New;
        } else {
          blobInfo := Broken;
          fileStatus := Unreadable;
        }
        fileState.SetStatusAndBlobInfo(fileStatus, Some(blobInfo));
        assert statesOfFiles[..i + 1][..i] == statesOfFiles[..i];
      }
      assert statesOfFiles[..|statesOfFiles|] == statesOfFiles;
    }

    /// The part of DoInspection between the scan and the end of the
    /// inspection: the attributes of every file, their count and total size,
    /// which the hashing progress counter must accept, then the hashes. A
    /// refusing counter throws ArgumentException: with no file before any
    /// state exists, otherwise with the states registered and none hashed.
    method AttributeAndHash(fsFiles: seq<FileEntity>, inspection: Inspection, env: Environment)
      returns (r: Result<seq<FileState>>, ghost states: seq<FileState>)
      modifies dataController
      ensures r.Err? <==> !CountersAccept(fsFiles, env.fileInfo)
      ensures r.Err? ==> r.error == ArgumentException && AllAttributed(states, fsFiles, inspection, env) &&
                         dataController.blobInfos == old(dataController.blobInfos)
      ensures r.Ok? ==> (r.value == states && Inspected(states, fsFiles, inspection, env) &&
                         dataController.blobInfos == old(dataController.blobInfos) + HashedBlobs(states, env))
      ensures forall s :: s in states ==> fresh(s)
      ensures dataController.fileStates == old(dataController.fileStates) + states
      ensures dataController.files == old(dataController.files) && dataController.directories == old(dataController.directories)
      ensures dataController.dataLocations == old(dataController.dataLocations) && dataController.inspections == old(dataController.inspections)
    {
      states := [];
      var attributed := GetAttributesOfFiles(fsFiles, inspection, env);
      if attributed.Err? {
        return Err(attributed.error), states;
      }
      var statesOfFiles := attributed.value;
      states := statesOfFiles;
      assert AllRecorded(states, fsFiles, inspection, env);
      var filesCount, dataSize := CountFilesAndSize(statesOfFiles);
      AttributedAvailability(fsFiles, env.fileInfo);
      var started := InitializeProgress(DoubleValue(dataSize, filesCount));
      if started.Fail? {
        return Err(started.error), states;
      }
      ComputeHashesOfFiles(statesOfFiles, env);
      r := Ok(statesOfFiles);
    }

    /// The attributes and hashes of the scanned files, and only then the end
    /// of the inspection; a refusing progress counter leaves it unfinished.
    method InspectFiles(fsFiles: seq<FileEntity>, inspection: Inspection, env: Environment)
      returns (r: Result<seq<FileState>>, ghost states: seq<FileState>)
      modifies dataController, inspection
      ensures r.Err? <==> !CountersAccept(fsFiles, env.fileInfo)
      ensures r.Err? ==> r.error == ArgumentException && AllAttributed(states, fsFiles, inspection, env) &&
                         dataController.blobInfos == old(dataController.blobInfos) && inspection.finish == old(inspection.finish)
      ensures r.Ok? ==> (r.value == states && Inspected(states, fsFiles, inspection, env) &&
                         dataController.blobInfos == old(dataController.blobInfos) + HashedBlobs(states, env) &&
                         inspection.finish == Some(env.now(InspectionFinish)))
      ensures forall s :: s in states ==> fresh(s)
      ensures dataController.fileStates == old(dataController.fileStates) + states
      ensures dataController.files == old(dataController.files) && dataController.directories == old(dataController.directories)
      ensures dataController.dataLocations == old(dataController.dataLocations) && dataController.inspections == old(dataController.inspections)
    {
      r, states := AttributeAndHash(fsFiles, inspection, env);
      if r.Ok? {
        inspection.FinishInspection(env.now(InspectionFinish));
      }
    }

    /// The part of DoInspection after a successful scan: the scanned tree is
    /// registered, the files are inspected, and the finished inspection,
    /// which is registered, passes the update check. A refusing progress
    /// counter throws before the inspection is finished.
    method RecordScan(rootDirectory: DC.DirectoryTree, fsFiles: seq<FileEntity>, inspection: Inspection, env: Environment)
      returns (r: Result<seq<FileState>>, ghost states: seq<FileState>)
      requires inspection in dataController.inspections
      modifies dataController, inspection
      ensures r.Err? <==> !CountersAccept(fsFiles, env.fileInfo)
      ensures r.Err? ==> r.error == ArgumentException && AllAttributed(states, fsFiles, inspection, env) &&
                         dataController.blobInfos == old(dataController.blobInfos) && inspection.finish == old(inspection.finish)
      ensures r.Ok? ==> (r.value == states && Inspected(states, fsFiles, inspection, env) &&
                         dataController.blobInfos == old(dataController.blobInfos) + HashedBlobs(states, env) &&
                         inspection.finish == Some(env.now(InspectionFinish)))
      ensures forall s :: s in states ==> fresh(s)
      ensures dataController.directories == old(dataController.directories) + DC.TreeDirectories(rootDirectory) &&
        dataController.files == old(dataController.files) + DC.TreeFiles(rootDirectory)
      ensures dataController.fileStates == old(dataController.fileStates) + states
      ensures dataController.dataLocations == old(dataController.dataLocations) &&
        dataController.inspections == old(dataController.inspections)
    {
      dataController.AddDirectory(rootDirectory);
      r, states := InspectFiles(fsFiles, inspection, env);
      if r.Ok? {
        var outcome := dataController.UpdateInspection(inspection);
        assert outcome == Pass;
      }
    }

    /// DoInspection: registers a new inspection of the location before the
    /// scan; a failing scan ends it there, unfinished. Otherwise the scanned
    /// tree is registered and every file gets a state. A progress counter
    /// refuses a scan with no file, or with no readable file with content,
    /// with ArgumentException, leaving the inspection unfinished and no
    /// location current. Otherwise every state is hashed, and only then is
    /// the inspection finished and the location made current.
    method DoInspection(dataLocation: DataLocation, env: Environment)
      returns (r: Result<DataLocation>, ghost inspection: Inspection, ghost states: seq<FileState>)
      modifies this, dataController
      ensures fresh(inspection) && inspection.dataLocation == dataLocation && inspection.start == env.now(InspectionStart)
      ensures dataController.inspections == old(dataController.inspections) + [inspection]
      ensures dataController.dataLocations == old(dataController.dataLocations)
      ensures Scan(env, dataLocation).Err? ==>
        r == Err(Scan(env, dataLocation).error) && currentDataLocation == null && inspection.finish.None? && states == []
      ensures Scan(env, dataLocation).Err? ==>
        dataController.files == old(dataController.files) && dataController.directories == old(dataController.directories) &&
        dataController.fileStates == old(dataController.fileStates) && dataController.blobInfos == old(dataController.blobInfos)
      ensures Scan(env, dataLocation).Ok? ==>
        dataController.directories == old(dataController.directories) + DC.TreeDirectories(Scan(env, dataLocation).value.0) &&
        dataController.files == old(dataController.files) + DC.TreeFiles(Scan(env, dataLocation).value.0) &&
        dataController.fileStates == old(dataController.fileStates) + states && forall s :: s in states ==> fresh(s)
      ensures Scan(env, dataLocation).Ok? && !CountersAccept(Scan(env, dataLocation).value.1, env.fileInfo) ==>
        r == Err(ArgumentException) && currentDataLocation == null && inspection.finish.None? &&
        AllAttributed(states, Scan(env, dataLocation).value.1, inspection, env) &&
        dataController.blobInfos == old(dataController.blobInfos)
      ensures Scan(env, dataLocation).Ok? && CountersAccept(Scan(env, dataLocation).value.1, env.fileInfo) ==>
        r == Ok(dataLocation) && currentDataLocation == dataLocation && inspection.finish == Some(env.now(InspectionFinish)) &&
        Inspected(states, Scan(env, dataLocation).value.1, inspection, env) &&
        dataController.blobInfos == old(dataController.blobInfos) + HashedBlobs(states, env)
    {
      currentDataLocation := null;
      var started := new Inspection(dataLocation, env.now(InspectionStart), None);
      inspection := started;
      dataController.AddInspection(started);
      states := [];
      var scan := Scan(env, dataLocation);
      if scan.Err? {
        return Err(scan.error), inspection, states;
      }
      var (rootDirectory, fsFiles) := scan.value;
      var recorded;
      recorded, states := RecordScan(rootDirectory, fsFiles, started, env);
      if recorded.Err? {
        return Err(recorded.error), inspection, states;
      }
      currentDataLocation := dataLocation;
      r := Ok(currentDataLocation);
    }
  }
}
