/// A file-system entity (a file or a directory) identified by its name and the
/// chain of its parent directories, with the path it caches.
module FsEntities {
  import opened DotNet

  /// The identity of a file or directory. Structural equality of these values
  /// is what the code's HashSet and Dictionary lookups rely on.
  datatype FsEntity = FsEntity(name: string, parent: Option<FsEntity>)

  /// Files always live in a directory.
  type FileEntity = e: FsEntity | e.parent.Some? witness FsEntity("f", Some(FsEntity("d", None)))

  /// char.IsWhiteSpace: the Unicode space separators, line and paragraph
  /// separators, and the control characters U+0009 to U+000D and U+0085.
  predicate IsWhiteSpace(c: char) {
    c == ' ' || '\t' <= c <= '\r' || c == '\U{85}' || c == '\U{A0}' || c == '\U{1680}' ||
    '\U{2000}' <= c <= '\U{200A}' || c == '\U{2028}' || c == '\U{2029}' || c == '\U{202F}' ||
    c == '\U{205F}' || c == '\U{3000}'
  }

  /// String.IsNullOrWhiteSpace.
  predicate IsNullOrWhiteSpace(s: Option<string>) {
    s.None? || forall k :: 0 <= k < |s.value| ==> IsWhiteSpace(s.value[k])
  }

  /// Every name along the chain passed the constructor's check.
  predicate WellNamed(e: FsEntity) {
    !IsNullOrWhiteSpace(Some(e.name)) && (e.parent.Some? ==> WellNamed(e.parent.value))
  }

  /// The FsEntity constructor: rejects a null, empty or blank name.
  function NewFsEntity(name: Option<string>, parent: Option<FsEntity>): (r: Result<FsEntity>)
    ensures r.Ok? <==> !IsNullOrWhiteSpace(name)
    ensures r.Ok? ==> r.value.name == name.value && r.value.parent == parent && |r.value.name| > 0
    ensures r.Err? ==> r.error == ArgumentException
    ensures r.Ok? && (parent.Some? ==> WellNamed(parent.value)) ==> WellNamed(r.value)
  {
    if IsNullOrWhiteSpace(name) then Err(ArgumentException) else Ok(FsEntity(name.value, parent))
  }

  /// FsEntity.ToString: the name alone, never blank for a constructed entity.
  function ToString(e: FsEntity): (r: string)
    requires WellNamed(e)
    ensures !IsNullOrWhiteSpace(Some(r)) && |r| > 0
  {
    e.name
  }

  /// The number of ancestors.
  function Depth(e: FsEntity): nat {
    if e.parent.None? then 0 else 1 + Depth(e.parent.value)
  }

  /// `a` is the parent of `e` or, transitively, an ancestor of it.
  predicate IsAncestor(a: FsEntity, e: FsEntity)
    decreases e
  {
    e.parent.Some? && (e.parent.value == a || IsAncestor(a, e.parent.value))
  }

  predicate IsAncestorOrSelf(a: FsEntity, e: FsEntity) {
    a == e || IsAncestor(a, e)
  }

  lemma {:induction false} AncestorIsShallower(a: FsEntity, e: FsEntity)
    requires IsAncestor(a, e)
    ensures Depth(a) < Depth(e)
  {
    if e.parent.value != a {
      AncestorIsShallower(a, e.parent.value);
    }
  }

  lemma {:induction false} AncestorTransitive(a: FsEntity, b: FsEntity, e: FsEntity)
    requires IsAncestor(a, b) && IsAncestorOrSelf(b, e)
    ensures IsAncestor(a, e)
    decreases e
  {
    if b != e && e.parent.value != b {
      AncestorTransitive(a, b, e.parent.value);
    }
  }

  // ---------------------------------------------------------------------------
  // Equality and hashing
  // ---------------------------------------------------------------------------

  /// The argument FsEntity.Equals passes on for the other entity's parent.
  function ParentOperand(e: FsEntity): Operand<FsEntity> {
    if e.parent.Some? then Instance(e.parent.value) else Null
  }

  /// FsEntity.Equals(object) as written: names compared first, then either
  /// both parents are null or this parent's Equals is called on the other's
  /// parent, which dereferences null when only the other entity has a parent.
  function Equals(self: FsEntity, obj: Operand<FsEntity>): Result<bool>
    decreases self
  {
    if !obj.Instance? then Ok(false)
    else if self.name != obj.value.name then Ok(false)
    else if self.parent.None? && obj.value.parent.None? then Ok(true)
    else if self.parent.None? then Err(NullReferenceException)
    else Equals(self.parent.value, ParentOperand(obj.value))
  }

  /// The chains have the same names up to the root of `a`, where `b` still has
  /// a parent: the case in which Equals dereferences null.
  predicate ShorterWithSameNames(a: FsEntity, b: FsEntity)
    decreases a
  {
    a.name == b.name && b.parent.Some? &&
    (a.parent.Some? ==> ShorterWithSameNames(a.parent.value, b.parent.value))
  }

  /// When FsEntity.Equals returns, its answer is structural equality.
  lemma {:induction false} EqualsIsStructural(a: FsEntity, b: FsEntity)
    requires Equals(a, Instance(b)).Ok?
    ensures Equals(a, Instance(b)).value <==> a == b
    decreases a
  {
    if a.name == b.name && a.parent.Some? {
      if b.parent.Some? {
        EqualsIsStructural(a.parent.value, b.parent.value);
      }
    }
  }

  /// FsEntity.Equals throws exactly when the other entity's chain has the same
  /// names and continues above this entity's root.
  lemma {:induction false} EqualsThrowsIff(a: FsEntity, b: FsEntity)
    ensures Equals(a, Instance(b)).Err? <==> ShorterWithSameNames(a, b)
    ensures Equals(a, Instance(b)).Err? ==> Equals(a, Instance(b)).error == NullReferenceException
    decreases a
  {
    if a.name == b.name && a.parent.Some? && b.parent.Some? {
      EqualsThrowsIff(a.parent.value, b.parent.value);
    }
  }

  lemma {:induction false} ShorterWithSameNamesIsShallower(a: FsEntity, b: FsEntity)
    requires ShorterWithSameNames(a, b)
    ensures Depth(a) < Depth(b)
    decreases a
  {
    if a.parent.Some? {
      ShorterWithSameNamesIsShallower(a.parent.value, b.parent.value);
    }
  }

  /// FsEntity.Equals never throws when the receiver is at least as deep as the
  /// argument; then it returns exactly structural equality.
  lemma EqualsTotalWhenNotShallower(a: FsEntity, b: FsEntity)
    requires Depth(b) <= Depth(a)
    ensures Equals(a, Instance(b)) == Ok(a == b)
  {
    EqualsThrowsIff(a, b);
    if ShorterWithSameNames(a, b) {
      ShorterWithSameNamesIsShallower(a, b);
    }
    EqualsIsStructural(a, b);
  }

  /// A root entity compared with an entity of the same name one level down:
  /// FsEntity.Equals dereferences the null parent instead of answering false.
  lemma EqualsThrowsOnRootAgainstNested()
    ensures Equals(FsEntity("a", None), Instance(FsEntity("a", Some(FsEntity("b", None))))) == Err(NullReferenceException)
    ensures Equals(FsEntity("a", Some(FsEntity("b", None))), Instance(FsEntity("a", None))) == Ok(false)
  {
  }

  /// The comparison FsEntity.Equals evidently intends: names equal, and the
  /// parents either both absent or equal in turn. It never throws, it is
  /// structural equality, and so it is symmetric.
  function StructuralEquals(self: FsEntity, obj: Operand<FsEntity>): (r: bool)
    ensures r <==> obj == Instance(self)
    decreases self
  {
    if !obj.Instance? || self.name != obj.value.name then false
    else match (self.parent, obj.value.parent)
      case (None, None) => true
      case (Some(p), Some(q)) => StructuralEquals(p, Instance(q))
      case _ => false
  }

  /// Where FsEntity.Equals does return, it agrees with the corrected comparison.
  lemma EqualsAgreesWhenItReturns(a: FsEntity, b: FsEntity)
    requires Equals(a, Instance(b)).Ok?
    ensures Equals(a, Instance(b)).value == StructuralEquals(a, Instance(b))
  {
    EqualsIsStructural(a, b);
  }

  /// FsEntity.GetHashCode, given String.GetHashCode: the name's hash, exclusive-or
  /// the parent's hash when there is a parent.
  function HashCode(e: FsEntity, nameHash: string -> bv32): bv32 {
    if e.parent.Some? then nameHash(e.name) ^ HashCode(e.parent.value, nameHash) else nameHash(e.name)
  }

  /// Entities that FsEntity.Equals reports equal have equal hash codes.
  lemma EqualEntitiesHashEqually(a: FsEntity, b: FsEntity, nameHash: string -> bv32)
    requires Equals(a, Instance(b)) == Ok(true)
    ensures HashCode(a, nameHash) == HashCode(b, nameHash)
  {
    EqualsIsStructural(a, b);
  }

  // ---------------------------------------------------------------------------
  // Paths
  // ---------------------------------------------------------------------------

  const DirectorySeparatorChar := '\\'

  /// Path.IsPathRooted on Windows: a leading separator or a drive letter.
  predicate IsPathRooted(p: string) {
    (|p| >= 1 && (p[0] == '\\' || p[0] == '/')) || (|p| >= 2 && p[1] == ':')
  }

  /// The last character is a directory or volume separator.
  predicate EndsWithSeparator(p: string) {
    |p| >= 1 && (p[|p| - 1] == '\\' || p[|p| - 1] == '/' || p[|p| - 1] == ':')
  }

  /// System.IO.Path.Combine of two paths.
  function Combine(path1: string, path2: string): (r: string)
    ensures |path2| > 0 && !IsPathRooted(path2) && |path1| > 0 ==>
      path1 <= r && |r| >= |path1| + |path2| && r[|r| - |path2|..] == path2
  {
    if |path2| == 0 then path1
    else if |path1| == 0 then path2
    else if IsPathRooted(path2) then path2
    else if EndsWithSeparator(path1) then path1 + path2
    else path1 + [DirectorySeparatorChar] + path2
  }

  /// The path FsEntity.Path computes when nothing along the chain has been
  /// cached or set: the root's name, then each name combined in turn.
  function PathOf(e: FsEntity): string {
    if e.parent.None? then e.name else Combine(PathOf(e.parent.value), e.name)
  }

  /// No name in the chain is rooted: the names of entities below a root.
  predicate RelativeNames(e: FsEntity) {
    |e.name| > 0 && !IsPathRooted(e.name) && (e.parent.Some? ==> RelativeNames(e.parent.value))
  }

  /// An ancestor's path is a proper prefix of its descendant's path, and the
  /// descendant's path ends with its name.
  lemma {:induction false} PathExtendsAncestorPath(a: FsEntity, e: FsEntity)
    requires RelativeNames(e) && IsAncestor(a, e)
    ensures PathOf(a) <= PathOf(e) && |PathOf(a)| < |PathOf(e)|
    ensures PathOf(e)[|PathOf(e)| - |e.name|..] == e.name
    decreases e
  {
    var p := e.parent.value;
    NonEmptyPath(p);
    if p != a {
      PathExtendsAncestorPath(a, p);
    }
  }

  lemma {:induction false} NonEmptyPath(e: FsEntity)
    requires RelativeNames(e)
    ensures |PathOf(e)| > 0
  {
    if e.parent.Some? {
      NonEmptyPath(e.parent.value);
    }
  }

  /// The object behind an FsEntity: its identity, the object of its parent
  /// directory, and the path it caches (FsEntity._path).
  class FsEntityNode {
    const entity: FsEntity
    const parentNode: FsEntityNode?
    ghost const depth: nat
    var path: Option<string>

    /// The parent object stands for the parent entity, one level up.
    ghost predicate Linked()
      decreases depth
    {
      (parentNode == null ==> entity.parent.None?) &&
      (parentNode != null ==>
        parentNode.depth < depth && entity.parent == Some(parentNode.entity) && parentNode.Linked())
    }

    /// This object and the objects of all its ancestors.
    ghost function Ancestors(): set<FsEntityNode>
      decreases depth
    {
      {this} + (if parentNode != null && parentNode.depth < depth then parentNode.Ancestors() else {})
    }

    lemma AncestorsAreShallower()
      requires Linked()
      ensures forall n :: n in Ancestors() ==> n.depth <= depth
      ensures parentNode != null ==> this !in parentNode.Ancestors()
      decreases depth
    {
      if parentNode != null {
        parentNode.AncestorsAreShallower();
      }
    }

    /// A root directory object.
    constructor Root(name: string)
      requires !IsNullOrWhiteSpace(Some(name))
      ensures Linked() && entity == FsEntity(name, None) && path.None?
    {
      entity := FsEntity(name, None);
      parentNode := null;
      depth := 0;
      path := None;
    }

    /// An entity object inside the directory of `parent`.
    constructor Child(name: string, parent: FsEntityNode)
      requires !IsNullOrWhiteSpace(Some(name)) && parent.Linked()
      ensures Linked() && entity == FsEntity(name, Some(parent.entity)) && parentNode == parent && path.None?
    {
      entity := FsEntity(name, Some(parent.entity));
      parentNode := parent;
      depth := parent.depth + 1;
      path := None;
    }

    /// The path a read of FsEntity.Path returns in the current state: the
    /// cached path if there is one, otherwise the parent's path combined with
    /// the name.
    function CurrentPath(): string
      requires Linked()
      reads Ancestors()
      decreases depth
    {
      if path.Some? then path.value
      else if parentNode == null then entity.name
      else Combine(parentNode.CurrentPath(), entity.name)
    }

    /// With nothing cached along the chain, the path is the combined chain of names.
    lemma {:induction false} UncachedPath()
      requires Linked()
      requires forall n :: n in Ancestors() ==> n.path.None?
      ensures CurrentPath() == PathOf(entity)
      decreases depth
    {
      if parentNode != null {
        parentNode.UncachedPath();
      }
    }

    /// FsEntity.Path: computed on the first read, the parent's path being read
    /// (and cached) in turn, then returned from the cache. A path already
    /// cached is never overwritten.
    method Path() returns (p: string)
      requires Linked()
      modifies Ancestors()
      ensures p == old(CurrentPath())
      ensures path == Some(p)
      ensures old(path.None?) && parentNode != null ==> parentNode.path == Some(old(parentNode.CurrentPath()))
      ensures forall n :: n in Ancestors() && old(allocated(n)) && old(n.path.Some?) ==> n.path == old(n.path)
      decreases depth
    {
      if path.None? {
        if parentNode == null {
          p := entity.name;
        } else {
          AncestorsAreShallower();
          var parentPath := parentNode.Path();
          p := Combine(parentPath, entity.name);
        }
        path := Some(p);
      }
      p := path.value;
    }

    /// FsEntity.SetPath: overwrites the cached path.
    method SetPath(fullPath: string)
      requires Linked()
      modifies this
      ensures path == Some(fullPath)
      ensures CurrentPath() == fullPath
    {
      path := Some(fullPath);
    }
  }
}
