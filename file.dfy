/// The file record of Common/File.cs: a size and a content digest that can be
/// assigned only once.
module Files {
  import opened DotNet
  import opened FsEntities

  class File {
    const entity: FileEntity
    const size: uint64
    var hashValue: Option<seq<bv8>>

    /// The constructor without a size: the size is zero.
    constructor WithoutSize(entity: FileEntity)
      ensures this.entity == entity && size == 0 && hashValue.None?
    {
      this.entity := entity;
      size := 0;
      hashValue := None;
    }

    constructor (entity: FileEntity, size: uint64)
      ensures this.entity == entity && this.size == size && hashValue.None?
    {
      this.entity := entity;
      this.size := size;
      hashValue := None;
    }

    /// The HashValue setter: accepted while no digest is set, refused with
    /// InvalidOperationException afterwards, so a digest once set never changes.
    method SetHashValue(value: Option<seq<bv8>>) returns (outcome: Outcome)
      modifies this
      ensures old(hashValue).None? ==> outcome == Pass && hashValue == value
      ensures old(hashValue).Some? ==> outcome == Fail(InvalidOperationException) && hashValue == old(hashValue)
    {
      if hashValue.None? {
        hashValue := value;
        outcome := Pass;
      } else {
        outcome := Fail(InvalidOperationException);
      }
    }
  }
}
