/// HierarchicalObject: a node of the report tree that wraps a blob, a file
/// or a directory, with a sort, a display name and child nodes.
module Hierarchy {
  import opened DotNet
  import BlobInfos
  import opened FsEntities

  /// The wrapped object: the report wraps blobs, files and directories.
  datatype Wrapped =
    | BlobObject(blob: BlobInfos.BlobInfo)
    | FileObject(file: FileEntity)
    | DirectoryObject(directory: FsEntity)

  /// The runtime type of the wrapped object.
  datatype ObjectType = BlobInfoType | FileType | DirectoryType

  /// Object.GetType() of the wrapped object.
  function TypeOf(w: Wrapped): (t: ObjectType)
    ensures t == BlobInfoType <==> w.BlobObject?
    ensures t == FileType <==> w.FileObject?
    ensures t == DirectoryType <==> w.DirectoryObject?
  {
    match w
    case BlobObject(_) => BlobInfoType
    case FileObject(_) => FileType
    case DirectoryObject(_) => DirectoryType
  }

  /// The entity a file or directory wrapper holds.
  function Entity(w: Wrapped): FsEntity
    requires !w.BlobObject?
  {
    if w.FileObject? then w.file else w.directory
  }

  /// Object.ToString() of the wrapped object: the blob's text, which embeds
  /// its size as formatted outside this model, or the entity's name.
  function ObjectString(w: Wrapped, dataSizeText: string): string {
    match w
    case BlobObject(b) => BlobInfos.ToString(b, dataSizeText)
    case FileObject(f) => f.name
    case DirectoryObject(d) => d.name
  }

  /// The wrapped object's Equals applied to another wrapped object: a blob
  /// equals only an equal blob, an entity is never equal to a blob, and two
  /// entities compare by FsEntity.Equals whatever their subtype.
  function WrappedEquals(a: Wrapped, b: Wrapped): Result<bool> {
    if a.BlobObject? then Ok(b == a)
    else if b.BlobObject? then Ok(false)
    else Equals(Entity(a), Instance(Entity(b)))
  }

  /// The wrapped object's GetHashCode.
  function WrappedHash(w: Wrapped, nameHash: string -> bv32): bv32 {
    if w.BlobObject? then BlobInfos.HashCode(w.blob) else HashCode(Entity(w), nameHash)
  }

  /// Wrapped objects are equal exactly when they are the same blob, or
  /// entities with equal names and parent chains; a file and a directory with
  /// the same name and parent are therefore equal.
  lemma WrappedEqualsMeaning(a: Wrapped, b: Wrapped)
    ensures WrappedEquals(a, b) == Ok(true) ==>
      (a.BlobObject? && a == b) || (!a.BlobObject? && !b.BlobObject? && Entity(a) == Entity(b))
    ensures a.BlobObject? || b.BlobObject? ==> WrappedEquals(a, b) == Ok(a == b)
    ensures !a.BlobObject? && !b.BlobObject? && Entity(a) == Entity(b) ==> WrappedEquals(a, b) == Ok(true)
  {
    if !a.BlobObject? && !b.BlobObject? {
      if WrappedEquals(a, b).Ok? {
        EqualsIsStructural(Entity(a), Entity(b));
      }
      if Entity(a) == Entity(b) {
        EqualsTotalWhenNotShallower(Entity(a), Entity(b));
        EqualsIsStructural(Entity(a), Entity(b));
      }
    }
  }

  /// Wrapped objects that compare equal hash equally.
  lemma EqualWrappedHashEqually(a: Wrapped, b: Wrapped, nameHash: string -> bv32)
    requires WrappedEquals(a, b) == Ok(true)
    ensures WrappedHash(a, nameHash) == WrappedHash(b, nameHash)
  {
    if !a.BlobObject? {
      EqualEntitiesHashEqually(Entity(a), Entity(b), nameHash);
    }
  }

  class HierarchicalObject {
    const obj: Wrapped
    const objectType: ObjectType
    const sort: bv32
    const name: string
    var children: Option<seq<HierarchicalObject>>

    /// The private constructor: stores every argument.
    constructor (obj: Wrapped, objectType: ObjectType, sort: bv32, name: string, children: Option<seq<HierarchicalObject>>)
      ensures this.obj == obj && this.objectType == objectType && this.sort == sort && this.name == name
      ensures this.children == children
    {
      this.obj := obj;
      this.objectType := objectType;
      this.sort := sort;
      this.name := name;
      this.children := children;
    }

    /// Create: records the wrapped object's runtime type, and names the node
    /// by the given representation or else by the object's ToString.
    static method Create(obj: Wrapped, sort: bv32, children: Option<seq<HierarchicalObject>>,
                         representation: Option<string>, dataSizeText: string)
      returns (h: HierarchicalObject)
      ensures fresh(h)
      ensures h.obj == obj && h.objectType == TypeOf(obj) && h.sort == sort && h.children == children
      ensures h.name == if representation.Some? then representation.value else ObjectString(obj, dataSizeText)
    {
      var objectType := TypeOf(obj);
      var name := if representation.Some? then representation.value else ObjectString(obj, dataSizeText);
      h := new HierarchicalObject(obj, objectType, sort, name, children);
    }

    /// SetChildObjects: replaces the children and nothing else.
    method SetChildObjects(children: Option<seq<HierarchicalObject>>)
      modifies this
      ensures this.children == children
    {
      this.children := children;
    }

    /// Equals(object): false for null and for other types, otherwise the
    /// wrapped objects' Equals, which throws NullReferenceException when the
    /// other entity's chain is deeper with the same names up to this root.
    function Equals(other: Operand<HierarchicalObject>): (r: Result<bool>)
      ensures !other.Instance? ==> r == Ok(false)
      ensures other.Instance? && (obj.BlobObject? || other.value.obj.BlobObject?) ==> r == Ok(obj == other.value.obj)
      ensures other.Instance? && !obj.BlobObject? && !other.value.obj.BlobObject? && Entity(obj) == Entity(other.value.obj) ==>
        r == Ok(true)
      ensures r == Ok(true) ==> (other.Instance? &&
        ((obj.BlobObject? && obj == other.value.obj) || (!obj.BlobObject? && !other.value.obj.BlobObject? && Entity(obj) == Entity(other.value.obj))))
      ensures other.Instance? && !obj.BlobObject? && !other.value.obj.BlobObject? ==>
        (r.Err? <==> ShorterWithSameNames(Entity(obj), Entity(other.value.obj))) &&
        (r.Err? ==> r.error == NullReferenceException) &&
        (r.Ok? ==> r.value == (Entity(obj) == Entity(other.value.obj)))
    {
      if !other.Instance? then Ok(false)
      else
        WrappedEqualsMeaning(obj, other.value.obj);
        if !obj.BlobObject? && !other.value.obj.BlobObject? then
          EqualsThrowsIff(Entity(obj), Entity(other.value.obj));
          if FsEntities.Equals(Entity(obj), Instance(Entity(other.value.obj))).Ok? then
            EqualsIsStructural(Entity(obj), Entity(other.value.obj));
            WrappedEquals(obj, other.value.obj)
          else WrappedEquals(obj, other.value.obj)
        else WrappedEquals(obj, other.value.obj)
    }

    /// GetHashCode: the wrapped object's hash code.
    function GetHashCode(nameHash: string -> bv32): bv32 {
      WrappedHash(obj, nameHash)
    }

    /// ToString: the wrapped object's ToString.
    function ToString(dataSizeText: string): (s: string)
      ensures obj.BlobObject? ==> s == BlobInfos.ToString(obj.blob, dataSizeText)
      ensures !obj.BlobObject? ==> s == Entity(obj).name
    {
      ObjectString(obj, dataSizeText)
    }
  }

  /// Nodes that compare equal have equal hash codes.
  lemma EqualObjectsHashEqually(a: HierarchicalObject, b: HierarchicalObject, nameHash: string -> bv32)
    requires a.Equals(Instance(b)) == Ok(true)
    ensures a.GetHashCode(nameHash) == b.GetHashCode(nameHash)
  {
    EqualWrappedHashEqually(a.obj, b.obj, nameHash);
  }
}
