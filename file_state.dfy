/// The state of one file as observed by one inspection.
module FileStates {
  import opened DotNet
  import opened BlobInfos
  import opened FsEntities
  import opened Inspections

  /// FileStatus.
  datatype FileStatus = Unknown | New | Unchanged | Modified | Removed | Unreadable | Error

  /// Compared by reference. The file, inspection, size and dates are fixed;
  /// the previous state, the status and the blob can be replaced.
  class FileState {
    const file: FileEntity
    const inspection: Inspection
    const size: int64
    const creationDate: int
    const modificationDate: int
    var previousState: FileState?
    var status: FileStatus
    var blobInfo: Option<BlobInfo>

    /// The eight-argument constructor: stores every field as given.
    constructor (file: FileEntity, inspection: Inspection, previousState: FileState?, size: int64,
                 status: FileStatus, creationDate: int, modificationDate: int, blobInfo: Option<BlobInfo>)
      ensures this.file == file && this.inspection == inspection && this.previousState == previousState
      ensures this.size == size && this.status == status && this.blobInfo == blobInfo
      ensures this.creationDate == creationDate && this.modificationDate == modificationDate
    {
      this.file := file;
      this.inspection := inspection;
      this.previousState := previousState;
      this.size := size;
      this.status := status;
      this.creationDate := creationDate;
      this.modificationDate := modificationDate;
      this.blobInfo := blobInfo;
    }

    /// The seven-argument constructor: no blob yet.
    constructor WithoutBlob(file: FileEntity, inspection: Inspection, previousState: FileState?, size: int64,
                            status: FileStatus, creationDate: int, modificationDate: int)
      ensures this.file == file && this.inspection == inspection && this.previousState == previousState
      ensures this.size == size && this.status == status && this.blobInfo.None?
      ensures this.creationDate == creationDate && this.modificationDate == modificationDate
    {
      this.file := file;
      this.inspection := inspection;
      this.previousState := previousState;
      this.size := size;
      this.status := status;
      this.creationDate := creationDate;
      this.modificationDate := modificationDate;
      this.blobInfo := None;
    }

    /// FileState.SetStatusAndBlobInfo: replaces the status and the blob, and nothing else.
    method SetStatusAndBlobInfo(status: FileStatus, blobInfo: Option<BlobInfo>)
      modifies this
      ensures this.status == status && this.blobInfo == blobInfo
      ensures previousState == old(previousState)
    {
      this.status := status;
      this.blobInfo := blobInfo;
    }

    /// FileState.SetPreviousFileState: replaces the link to the previous state only.
    method SetPreviousFileState(previousState: FileState?)
      modifies this
      ensures this.previousState == previousState
      ensures status == old(status) && blobInfo == old(blobInfo)
    {
      this.previousState := previousState;
    }
  }
}
