/// DuplicateReport: the report built from three blob-to-files maps (blobs
/// with unprocessed duplicates, blobs with some duplicates isolated, and
/// files that exist only in isolation), grouped by folder or by blob into
/// HierarchicalObject trees.
module Reports {
  import opened DotNet
  import opened BlobInfos
  import opened FsEntities
  import opened DataLocations
  import opened Grouping
  import opened Hierarchy
  import OS = ObjectSorts
  import DataController

  /// Every file of the maps' entries, entry by entry.
  function Flatten(entries: seq<Entry<BlobInfo, FileEntity>>): (files: seq<FileEntity>)
    ensures forall f :: f in files <==> exists i :: 0 <= i < |entries| && f in entries[i].values
  {
    if entries == [] then []
    else
      var init := entries[..|entries| - 1];
      assert forall i :: 0 <= i < |init| ==> init[i] == entries[i];
      Flatten(init) + entries[|entries| - 1].values
  }

  /// Each file paired with its parent directory.
  function ParentPairs(files: seq<FileEntity>): (pairs: seq<(FsEntity, FileEntity)>)
    ensures |pairs| == |files|
  {
    if files == [] then [] else ParentPairs(files[..|files| - 1]) + [(files[|files| - 1].parent.value, files[|files| - 1])]
  }

  /// The i-th pair is the i-th file under its parent.
  lemma {:induction false} ParentPairsIndex(files: seq<FileEntity>)
    ensures forall i :: 0 <= i < |files| ==> ParentPairs(files)[i] == (files[i].parent.value, files[i])
  {
    if files != [] {
      var init := files[..|files| - 1];
      ParentPairsIndex(init);
      assert forall i :: 0 <= i < |init| ==> init[i] == files[i];
    }
  }

  /// The folder grouping of AnalyzeDuplicatesAndGroupByFolders, file by
  /// file: each file goes into the List of its parent directory.
  function FolderGroups(files: seq<FileEntity>): seq<Entry<FsEntity, FileEntity>> {
    if files == [] then []
    else Add(FolderGroups(files[..|files| - 1]), files[|files| - 1].parent.value, files[|files| - 1], false)
  }

  /// The folder grouping is the grouping of the (parent, file) pairs.
  lemma {:induction false} FolderGroupsArePairGroups(files: seq<FileEntity>)
    ensures FolderGroups(files) == GroupBy(ParentPairs(files), false)
  {
    if files != [] {
      FolderGroupsArePairGroups(files[..|files| - 1]);
      var pairs := ParentPairs(files);
      assert pairs[..|files| - 1] == ParentPairs(files[..|files| - 1]);
    }
  }

  /// The folder grouping holds one entry per parent directory of the files,
  /// and an entry holds exactly the files of that directory, in order.
  lemma FolderGroupsMeaning(files: seq<FileEntity>, e: Entry<FsEntity, FileEntity>)
    ensures e in GroupBy(ParentPairs(files), false) ==> e.values != [] && forall f :: f in e.values <==> f in files && f.parent == Some(e.key)
    ensures forall f :: f in files ==> Entry(f.parent.value, Select(ParentPairs(files), f.parent.value)) in GroupBy(ParentPairs(files), false)
  {
    var pairs := ParentPairs(files);
    ParentPairsIndex(files);
    GroupByEntries(pairs, false, e);
    SelectMembers(pairs, e.key);
    if e in GroupBy(pairs, false) {
      var k :| 0 <= k < |pairs| && PairKeys(pairs)[k] == e.key;
      assert pairs[k] == (files[k].parent.value, files[k]);
      assert files[k] in e.values;
    }
    forall f | f in files
      ensures Entry(f.parent.value, Select(pairs, f.parent.value)) in GroupBy(pairs, false)
    {
      var k :| 0 <= k < |files| && files[k] == f;
      assert PairKeys(pairs)[k] == f.parent.value;
      GroupByEntries(pairs, false, Entry(f.parent.value, Select(pairs, f.parent.value)));
    }
  }

  /// A directory counts as isolated when it or one of its ancestors is an
  /// "isolated duplicates" directory.
  function IsDirectoryInIsolatedDuplicates(directory: FsEntity, isolated: set<FsEntity>): (r: bool)
    decreases directory
    ensures r <==> exists a :: a in isolated && IsAncestorOrSelf(a, directory)
  {
    if directory in isolated then true
    else if directory.parent.Some? then IsDirectoryInIsolatedDuplicates(directory.parent.value, isolated)
    else false
  }

  /// The number of files lying in isolated directories.
  function IsolatedCount(files: seq<FileEntity>, isolated: set<FsEntity>): (n: nat)
    ensures n <= |files|
  {
    if files == [] then 0
    else IsolatedCount(files[..|files| - 1], isolated) +
         if IsDirectoryInIsolatedDuplicates(files[|files| - 1].parent.value, isolated) then 1 else 0
  }

  /// The object MakeFileObjects makes for a file: a file object without
  /// children, named after the file and its directory's path.
  ghost predicate IsFileObject(o: HierarchicalObject, file: FileEntity, unique: bool, isolated: set<FsEntity>)
    reads o
  {
    o.obj == FileObject(file) && o.objectType == FileType && o.children.None? &&
    o.sort == FileSort(unique, IsDirectoryInIsolatedDuplicates(file.parent.value, isolated)) &&
    o.name == file.name + " | " + PathOf(file.parent.value)
  }

  /// The sort MakeFileObjects gives a file.
  function FileSort(unique: bool, isolatedFile: bool): bv32 {
    (if unique then OS.FileSpecimen | OS.IsUnique else OS.FileSpecimen) |
    (if isolatedFile then OS.IsolatedDuplicate else OS.InOriginalLocation)
  }

  /// A file's sort marks it as a file specimen, as exactly one of isolated
  /// or in its original location, and as unique exactly when asked.
  lemma FileSortFlags(unique: bool, isolatedFile: bool)
    ensures OS.HasFlag(FileSort(unique, isolatedFile), OS.FileSpecimen)
    ensures OS.HasFlag(FileSort(unique, isolatedFile), OS.IsolatedDuplicate) <==> isolatedFile
    ensures OS.HasFlag(FileSort(unique, isolatedFile), OS.InOriginalLocation) <==> !isolatedFile
    ensures OS.HasFlag(FileSort(unique, isolatedFile), OS.IsUnique) <==> unique
    ensures !OS.HasFlag(FileSort(unique, isolatedFile), OS.Blob)
  {
  }

  /// MakeUnprocessedDuplicatesObject's blob sort for the counts of files in
  /// original locations and in isolation: a single original file throws.
  function UnprocessedSort(unprocessed: nat, isolated: nat): Result<bv32> {
    if unprocessed == 1 then Err(GeneralException)
    else if unprocessed > 1 then Ok(OS.Blob | OS.HasOriginalFiles | OS.HasUnprocessedDuplicates)
    else Ok(OS.Blob)
  }

  /// MakeComplexBlobObject's blob sort: throws without isolated files or
  /// without original files.
  function ComplexSort(unprocessed: nat, isolated: nat): Result<bv32> {
    if isolated == 0 || unprocessed == 0 then Err(GeneralException)
    else if unprocessed > 1 then Ok(OS.Blob | OS.HasIsolatedDuplicates | OS.HasOriginalFiles | OS.HasUnprocessedDuplicates)
    else Ok(OS.Blob | OS.HasIsolatedDuplicates | OS.HasOriginalFiles)
  }

  /// MakeUniqueIsolatedObject's blob sort: throws with any original file or
  /// without isolated files.
  function UniqueIsolatedSort(unprocessed: nat, isolated: nat): Result<bv32> {
    if unprocessed > 0 || isolated == 0 then Err(GeneralException)
    else Ok(OS.Blob | OS.HasIsolatedDuplicates | OS.ContainsUniqueIsolatedFiles)
  }

  /// The three maps of the report, each checked by its own validator.
  datatype BlobGroup = Unprocessed | PartiallyIsolated | UniqueIsolated

  function GroupSort(kind: BlobGroup, unprocessed: nat, isolated: nat): Result<bv32> {
    match kind
    case Unprocessed => UnprocessedSort(unprocessed, isolated)
    case PartiallyIsolated => ComplexSort(unprocessed, isolated)
    case UniqueIsolated => UniqueIsolatedSort(unprocessed, isolated)
  }

  /// What the three validators accept, and what the accepted sorts say: a
  /// partially isolated blob is "all duplicates isolated" exactly when one
  /// original file is left, and a unique isolated blob carries the
  /// unique-isolated composite.
  lemma ValidatorSorts(unprocessed: nat, isolated: nat)
    ensures UnprocessedSort(unprocessed, isolated).Ok? <==> unprocessed != 1
    ensures UnprocessedSort(unprocessed, isolated).Ok? ==>
      (OS.HasFlag(UnprocessedSort(unprocessed, isolated).value, OS.HasUnprocessedDuplicates) <==> unprocessed > 1) &&
      !OS.HasFlag(UnprocessedSort(unprocessed, isolated).value, OS.HasIsolatedDuplicates)
    ensures ComplexSort(unprocessed, isolated).Ok? <==> isolated > 0 && unprocessed > 0
    ensures ComplexSort(unprocessed, isolated).Ok? ==>
      OS.HasFlag(ComplexSort(unprocessed, isolated).value, OS.AllDuplicatesIsolated) &&
      (ComplexSort(unprocessed, isolated).value == OS.AllDuplicatesIsolated <==> unprocessed == 1)
    ensures UniqueIsolatedSort(unprocessed, isolated).Ok? <==> unprocessed == 0 && isolated > 0
    ensures UniqueIsolatedSort(unprocessed, isolated).Ok? ==>
      OS.HasFlag(UniqueIsolatedSort(unprocessed, isolated).value, OS.ContainsUniqueIsolatedFiles) &&
      !OS.HasFlag(UniqueIsolatedSort(unprocessed, isolated).value, OS.HasOriginalFiles)
  {
  }

  /// No element occurs twice.
  predicate NoRepeats<T(==)>(s: seq<T>) {
    forall i, j :: 0 <= i < j < |s| ==> s[i] != s[j]
  }

  /// Dictionary<Directory, HashSet<Directory>>: keys in insertion order,
  /// each with its child directories in insertion order.
  class DirectoryChildren {
    var order: seq<FsEntity>
    var children: map<FsEntity, seq<FsEntity>>

    ghost predicate Valid()
      reads this
    {
      (forall d :: d in children <==> d in order) &&
      (forall i, j :: 0 <= i < j < |order| ==> order[i] != order[j]) &&
      (forall d :: d in children ==> NoRepeats(children[d]))
    }

    /// An empty dictionary.
    constructor ()
      ensures Valid() && order == [] && children == map[]
    {
      order := [];
      children := map[];
    }

    /// Dictionary.Add(key, new HashSet()): throws ArgumentException when the
    /// key is present.
    method Add(key: FsEntity) returns (outcome: Outcome)
      requires Valid()
      modifies this
      ensures Valid()
      ensures outcome == Pass <==> key !in old(children)
      ensures outcome.Fail? ==> outcome.error == ArgumentException && order == old(order) && children == old(children)
      ensures outcome.Pass? ==> order == old(order) + [key] && children == old(children)[key := []]
    {
      if key in children {
        return Fail(ArgumentException);
      }
      order := order + [key];
      children := children[key := []];
      outcome := Pass;
    }

    /// directories[parent].Add(child).
    method AddChild(parent: FsEntity, child: FsEntity)
      requires Valid() && parent in children
      modifies this
      ensures Valid()
      ensures order == old(order) && children == old(children)[parent := Append(old(children)[parent], child, true)]
    {
      children := children[parent := Append(children[parent], child, true)];
    }
  }

  /// Every key's parent, when it has one, is a key.
  ghost predicate UpClosed(keys: set<FsEntity>) {
    forall k :: k in keys && k.parent.Some? ==> k.parent.value in keys
  }

  /// How AddDirectory may change the dictionary for a directory d: existing
  /// keys keep their children as a prefix; new keys are d or its ancestors,
  /// with their parents as keys; every new child is d or an ancestor of it,
  /// recorded under its own parent.
  ghost predicate Extends(before: map<FsEntity, seq<FsEntity>>, after: map<FsEntity, seq<FsEntity>>, d: FsEntity) {
    (forall k :: k in before ==> k in after && before[k] <= after[k]) &&
    NewKeysAreAncestors(before, after, d) && NewChildrenAreAncestors(before, after, d)
  }

  ghost predicate NewKeysAreAncestors(before: map<FsEntity, seq<FsEntity>>, after: map<FsEntity, seq<FsEntity>>, d: FsEntity) {
    forall k :: k in after && k !in before ==> IsAncestorOrSelf(k, d) && (k.parent.Some? ==> k.parent.value in after)
  }

  ghost predicate NewChildrenAreAncestors(before: map<FsEntity, seq<FsEntity>>, after: map<FsEntity, seq<FsEntity>>, d: FsEntity) {
    forall k, c :: k in after && c in after[k] ==> (k in before && c in before[k]) || (IsAncestorOrSelf(c, d) && c.parent == Some(k))
  }

  /// An ancestor of a directory's parent is an ancestor of the directory.
  lemma ParentAncestor(a: FsEntity, d: FsEntity)
    requires d.parent.Some? && IsAncestorOrSelf(a, d.parent.value)
    ensures IsAncestor(a, d)
  {
  }

  /// The dictionary after AddDirectory has added d's parent, then d as a
  /// child of the parent, then d as a key.
  function StepResult(m1: map<FsEntity, seq<FsEntity>>, d: FsEntity): map<FsEntity, seq<FsEntity>>
    requires d.parent.Some? && d.parent.value in m1
  {
    var m2 := m1[d.parent.value := Append(m1[d.parent.value], d, true)];
    if d in m2 then m2 else m2[d := []]
  }

  lemma NewKeysStep(m0: map<FsEntity, seq<FsEntity>>, m1: map<FsEntity, seq<FsEntity>>, d: FsEntity)
    requires d.parent.Some? && d.parent.value in m1 && NewKeysAreAncestors(m0, m1, d.parent.value)
    ensures NewKeysAreAncestors(m0, StepResult(m1, d), d)
  {
    var m3 := StepResult(m1, d);
    forall k | k in m3 && k !in m0
      ensures IsAncestorOrSelf(k, d) && (k.parent.Some? ==> k.parent.value in m3)
    {
      if k != d {
        ParentAncestor(k, d);
      }
    }
  }

  lemma NewChildrenStep(m0: map<FsEntity, seq<FsEntity>>, m1: map<FsEntity, seq<FsEntity>>, d: FsEntity)
    requires d.parent.Some? && d.parent.value in m1 && NewChildrenAreAncestors(m0, m1, d.parent.value)
    ensures NewChildrenAreAncestors(m0, StepResult(m1, d), d)
  {
    var m3 := StepResult(m1, d);
    forall k, c | k in m3 && c in m3[k]
      ensures (k in m0 && c in m0[k]) || (IsAncestorOrSelf(c, d) && c.parent == Some(k))
    {
      if c != d {
        assert k in m1 && c in m1[k];
        if !(k in m0 && c in m0[k]) {
          ParentAncestor(c, d);
        }
      }
    }
  }

  /// Adding d as a child of its parent, and then as a key, after the parent
  /// has been added, extends the dictionary for d.
  lemma ExtendsStep(m0: map<FsEntity, seq<FsEntity>>, m1: map<FsEntity, seq<FsEntity>>, d: FsEntity)
    requires d.parent.Some? && d.parent.value in m1 && Extends(m0, m1, d.parent.value)
    ensures Extends(m0, StepResult(m1, d), d)
  {
    NewKeysStep(m0, m1, d);
    NewChildrenStep(m0, m1, d);
  }

  /// Every child directory is itself a key.
  ghost predicate ChildrenAreKeys(children: map<FsEntity, seq<FsEntity>>) {
    forall k, c :: k in children && c in children[k] ==> c in children
  }

  /// Every key with a parent is recorded among its parent's children.
  ghost predicate Linked(children: map<FsEntity, seq<FsEntity>>) {
    forall k :: k in children && k.parent.Some? ==> k.parent.value in children && k in children[k.parent.value]
  }

  /// No key is a child directory of a key that comes after it among the
  /// first n keys.
  ghost predicate ParentsFirst(order: seq<FsEntity>, children: map<FsEntity, seq<FsEntity>>, n: nat)
    requires n <= |order|
  {
    forall i, j :: 0 <= j < i < n && order[i] in children ==> order[j] !in children[order[i]]
  }

  /// The directory is one of the first n folders with duplicates or an
  /// ancestor of one.
  ghost predicate UnderGroups(k: FsEntity, groups: seq<Entry<FsEntity, FileEntity>>, n: nat)
    requires n <= |groups|
  {
    exists j :: 0 <= j < n && IsAncestorOrSelf(k, groups[j].key)
  }

  /// The step of AddDirectory that records a directory under its parent and
  /// as a key keeps every child a key.
  lemma StepKeys(m1: map<FsEntity, seq<FsEntity>>, d: FsEntity)
    requires d.parent.Some? && d.parent.value in m1 && ChildrenAreKeys(m1)
    ensures ChildrenAreKeys(StepResult(m1, d))
  {
  }

  /// On a dictionary whose keys are recorded under their parents, the step
  /// changes nothing for a directory already a key, and otherwise appends it
  /// as the last key: the keys stay recorded under their parents and no
  /// child comes before its parent.
  lemma StepLinked(m1: map<FsEntity, seq<FsEntity>>, o1: seq<FsEntity>, d: FsEntity)
    requires d.parent.Some? && d.parent.value in m1 && Keyed(o1, m1) && ChildrenAreKeys(m1) && Linked(m1)
    ensures d in m1 ==> StepResult(m1, d) == m1
    ensures Linked(StepResult(m1, d))
    ensures d !in m1 && ParentsFirst(o1, m1, |o1|) ==> ParentsFirst(o1 + [d], StepResult(m1, d), |o1| + 1)
  {
    var p := d.parent.value;
    if d !in m1 {
      var m3 := StepResult(m1, d);
      assert d !in m1[p];
      forall k | k in m3 && k.parent.Some?
        ensures k.parent.value in m3 && k in m3[k.parent.value]
      {
        if k != d {
          assert k.parent.value in m1 && k in m1[k.parent.value];
        }
      }
      if ParentsFirst(o1, m1, |o1|) {
        var o3 := o1 + [d];
        forall i, j | 0 <= j < i < |o3| && o3[i] in m3
          ensures o3[j] !in m3[o3[i]]
        {
          if i < |o1| {
            assert o3[i] == o1[i] && o3[j] == o1[j] && o1[j] != d;
            assert o1[j] !in m1[o1[i]];
          }
        }
      }
    }
  }

  /// The second loop of GroupDuplicatesByDirectories: every folder with
  /// duplicates added with its ancestors. The keys already present stay
  /// first, every folder becomes a key, and the only new keys are folders
  /// with duplicates and their ancestors; when the keys were closed under
  /// parents, they become exactly the old keys and every ancestor-or-self of
  /// a folder. On a dictionary whose keys are recorded under their parents,
  /// that stays so and no child comes to precede its parent.
  method AddFolders(directories: DirectoryChildren, groups: seq<Entry<FsEntity, FileEntity>>)
    requires directories.Valid() && ChildrenUnderParent(directories.children) && ChildrenAreKeys(directories.children)
    modifies directories
    ensures directories.Valid() && ChildrenUnderParent(directories.children) && ChildrenAreKeys(directories.children)
    ensures old(directories.order) <= directories.order
    ensures forall j :: 0 <= j < |groups| ==> groups[j].key in directories.children
    ensures forall k :: k in directories.children && k !in old(directories.children) ==> UnderGroups(k, groups, |groups|)
    ensures UpClosed(old(directories.children).Keys) ==>
      (UpClosed(directories.children.Keys) &&
       forall k :: k in directories.children <==> k in old(directories.children) || UnderGroups(k, groups, |groups|))
    ensures Linked(old(directories.children)) && ParentsFirst(old(directories.order), old(directories.children), |old(directories.order)|) ==>
      Linked(directories.children) && ParentsFirst(directories.order, directories.children, |directories.order|)
  {
    ghost var start, startOrder := directories.children, directories.order;
    ghost var closed := UpClosed(start.Keys);
    ghost var linked := Linked(start) && ParentsFirst(startOrder, start, |startOrder|);
    for i := 0 to |groups|
      invariant directories.Valid()
      invariant FoldersAdded(start, startOrder, directories.order, directories.children, groups, i, closed, linked)
    {
      ghost var before, o0 := directories.children, directories.order;
      AddDirectory(directories, groups[i].key);
      FoldersStep(start, startOrder, o0, before, directories.order, directories.children, groups, i, closed, linked);
    }
  }

  /// The state of AddFolders after the first i folders, from the keys start
  /// in the order startOrder.
  ghost predicate FoldersAdded(start: map<FsEntity, seq<FsEntity>>, startOrder: seq<FsEntity>, order: seq<FsEntity>,
                               children: map<FsEntity, seq<FsEntity>>, groups: seq<Entry<FsEntity, FileEntity>>,
                               i: nat, closed: bool, linked: bool)
    requires i <= |groups|
  {
    ChildrenUnderParent(children) && ChildrenAreKeys(children) && startOrder <= order &&
    (forall j :: 0 <= j < i ==> groups[j].key in children) &&
    (forall k :: k in start ==> k in children) &&
    (forall k :: k in children && k !in start ==> UnderGroups(k, groups, i)) &&
    (closed ==> UpClosed(children.Keys) && forall k :: k in children <==> k in start || UnderGroups(k, groups, i)) &&
    (linked ==> Linked(children) && ParentsFirst(order, children, |order|))
  }

  /// Adding the i-th folder with AddDirectory keeps the state of AddFolders.
  lemma FoldersStep(start: map<FsEntity, seq<FsEntity>>, startOrder: seq<FsEntity>,
                    o0: seq<FsEntity>, before: map<FsEntity, seq<FsEntity>>,
                    o1: seq<FsEntity>, after: map<FsEntity, seq<FsEntity>>,
                    groups: seq<Entry<FsEntity, FileEntity>>, i: nat, closed: bool, linked: bool)
    requires i < |groups| && FoldersAdded(start, startOrder, o0, before, groups, i, closed, linked)
    requires ChildrenAreKeys(after) && groups[i].key in after && o0 <= o1 && Extends(before, after, groups[i].key)
    requires Linked(before) ==> Linked(after) && (ParentsFirst(o0, before, |o0|) ==> ParentsFirst(o1, after, |o1|))
    ensures FoldersAdded(start, startOrder, o1, after, groups, i + 1, closed, linked)
  {
    var d := groups[i].key;
    ChildrenUnderParentKept(before, after, d);
    NewKeysUnderGroups(start, before, after, groups, i);
    if closed {
      ClosedStep(start, before, after, groups, i);
    }
  }

  /// The keys AddDirectory adds for the i-th folder are ancestors-or-self of
  /// it.
  lemma NewKeysUnderGroups(start: map<FsEntity, seq<FsEntity>>, before: map<FsEntity, seq<FsEntity>>,
                           after: map<FsEntity, seq<FsEntity>>, groups: seq<Entry<FsEntity, FileEntity>>, i: nat)
    requires i < |groups| && NewKeysAreAncestors(before, after, groups[i].key)
    requires forall k :: k in before && k !in start ==> UnderGroups(k, groups, i)
    ensures forall k :: k in after && k !in start ==> UnderGroups(k, groups, i + 1)
  {
    forall k | k in after && k !in start
      ensures UnderGroups(k, groups, i + 1)
    {
      if k in before {
        var j :| 0 <= j < i && IsAncestorOrSelf(k, groups[j].key);
        assert 0 <= j < i + 1;
      } else {
        assert 0 <= i < i + 1 && IsAncestorOrSelf(k, groups[i].key);
      }
    }
  }

  /// From keys closed under parents that are the start keys and the
  /// ancestors-or-self of the first i folders, AddDirectory for the i-th
  /// folder gives the same for the first i + 1.
  lemma ClosedStep(start: map<FsEntity, seq<FsEntity>>, before: map<FsEntity, seq<FsEntity>>,
                   after: map<FsEntity, seq<FsEntity>>, groups: seq<Entry<FsEntity, FileEntity>>, i: nat)
    requires i < |groups| && groups[i].key in after && Extends(before, after, groups[i].key)
    requires UpClosed(before.Keys) && forall k :: k in before <==> k in start || UnderGroups(k, groups, i)
    ensures UpClosed(after.Keys) && forall k :: k in after <==> k in start || UnderGroups(k, groups, i + 1)
  {
    AddDirectoryClosure(before.Keys, after.Keys, groups[i].key);
    forall k | UnderGroups(k, groups, i + 1)
      ensures k in after
    {
      var j :| 0 <= j < i + 1 && IsAncestorOrSelf(k, groups[j].key);
      if j < i {
        assert UnderGroups(k, groups, i);
      }
    }
  }

  /// AddDirectory: makes the directory a key and, when it has a parent, a
  /// child of its parent, adding the parent first when it is not yet a key.
  method AddDirectory(directories: DirectoryChildren, directoryToAdd: FsEntity)
    requires directories.Valid() && ChildrenAreKeys(directories.children)
    modifies directories
    decreases directoryToAdd
    ensures directories.Valid() && ChildrenAreKeys(directories.children)
    ensures directoryToAdd in directories.children
    ensures directoryToAdd.parent.Some? ==>
      (directoryToAdd.parent.value in directories.children && directoryToAdd in directories.children[directoryToAdd.parent.value])
    ensures old(directories.order) <= directories.order
    ensures Extends(old(directories.children), directories.children, directoryToAdd)
    ensures Linked(old(directories.children)) ==>
      (Linked(directories.children) &&
       (ParentsFirst(old(directories.order), old(directories.children), |old(directories.order)|) ==>
        ParentsFirst(directories.order, directories.children, |directories.order|)))
  {
    var parentDirectory := directoryToAdd.parent;
    if parentDirectory.Some? {
      ghost var m0, o0 := directories.children, directories.order;
      if parentDirectory.value !in directories.children {
        AddDirectory(directories, parentDirectory.value);
      }
      ghost var m1, o1 := directories.children, directories.order;
      AddUnderParent(directories, directoryToAdd);
      AddStep(m0, o0, m1, o1, directoryToAdd);
    } else if directoryToAdd !in directories.children {
      ghost var m0, o0 := directories.children, directories.order;
      var _ := directories.Add(directoryToAdd);
      RootStep(m0, o0, directoryToAdd);
    }
  }

  /// Adding a directory without a parent as a new last key keeps the key
  /// invariants.
  lemma RootStep(m0: map<FsEntity, seq<FsEntity>>, o0: seq<FsEntity>, d: FsEntity)
    requires d.parent.None? && d !in m0 && Keyed(o0, m0) && ChildrenAreKeys(m0)
    ensures ChildrenAreKeys(m0[d := []]) && Extends(m0, m0[d := []], d)
    ensures Linked(m0) ==> Linked(m0[d := []])
    ensures ParentsFirst(o0, m0, |o0|) ==> ParentsFirst(o0 + [d], m0[d := []], |o0| + 1)
  {
    var m1, o1 := m0[d := []], o0 + [d];
    if ParentsFirst(o0, m0, |o0|) {
      forall i, j | 0 <= j < i < |o1| && o1[i] in m1
        ensures o1[j] !in m1[o1[i]]
      {
        if i < |o0| {
          assert o1[i] == o0[i] && o1[j] == o0[j] && o0[i] != d;
        }
      }
    }
  }

  /// The tail of AddDirectory once the parent is a key: the directory is
  /// recorded among the parent's children, then made a key when it is not
  /// one.
  method AddUnderParent(directories: DirectoryChildren, directoryToAdd: FsEntity)
    requires directories.Valid() && directoryToAdd.parent.Some? && directoryToAdd.parent.value in directories.children
    modifies directories
    ensures directories.Valid()
    ensures directories.children == StepResult(old(directories.children), directoryToAdd)
    ensures directories.order ==
      if directoryToAdd in old(directories.children) then old(directories.order) else old(directories.order) + [directoryToAdd]
  {
    directories.AddChild(directoryToAdd.parent.value, directoryToAdd);
    if directoryToAdd !in directories.children {
      var _ := directories.Add(directoryToAdd);
    }
  }

  /// What AddDirectory promises, from what adding the parent promised and
  /// the tail step.
  lemma AddStep(m0: map<FsEntity, seq<FsEntity>>, o0: seq<FsEntity>, m1: map<FsEntity, seq<FsEntity>>, o1: seq<FsEntity>, d: FsEntity)
    requires d.parent.Some? && d.parent.value in m1 && Keyed(o1, m1) && ChildrenAreKeys(m1) && o0 <= o1
    requires Extends(m0, m1, d.parent.value)
    requires Linked(m0) ==> Linked(m1) && (ParentsFirst(o0, m0, |o0|) ==> ParentsFirst(o1, m1, |o1|))
    ensures ChildrenAreKeys(StepResult(m1, d)) && Extends(m0, StepResult(m1, d), d)
    ensures d.parent.value in StepResult(m1, d) && d in StepResult(m1, d)[d.parent.value]
    ensures o0 <= if d in m1 then o1 else o1 + [d]
    ensures Linked(m0) ==>
      (Linked(StepResult(m1, d)) &&
       (ParentsFirst(o0, m0, |o0|) ==>
        ParentsFirst(if d in m1 then o1 else o1 + [d], StepResult(m1, d), |if d in m1 then o1 else o1 + [d]|)))
  {
    ExtendsStep(m0, m1, d);
    StepKeys(m1, d);
    if Linked(m0) {
      StepLinked(m1, o1, d);
    }
  }

  /// Starting from keys closed under parents, AddDirectory adds exactly the
  /// directory and its ancestors that are missing, and the keys stay closed.
  lemma AddDirectoryClosure(before: set<FsEntity>, after: set<FsEntity>, d: FsEntity)
    requires UpClosed(before) && before <= after && d in after
    requires forall k :: k in after && k !in before ==> IsAncestorOrSelf(k, d) && (k.parent.Some? ==> k.parent.value in after)
    ensures UpClosed(after)
    ensures forall k :: k in after <==> k in before || IsAncestorOrSelf(k, d)
  {
    forall k | IsAncestorOrSelf(k, d)
      ensures k in after
    {
      AncestorsAreKeys(before, after, d, k);
    }
  }

  /// Walking up from a key, every ancestor is a key.
  lemma {:induction false} AncestorsAreKeys(before: set<FsEntity>, after: set<FsEntity>, d: FsEntity, a: FsEntity)
    requires UpClosed(before) && before <= after && d in after
    requires forall k :: k in after && k !in before ==> (k.parent.Some? ==> k.parent.value in after)
    requires IsAncestorOrSelf(a, d)
    ensures a in after
    decreases d
  {
    if a != d {
      assert d.parent.value in after;
      if a != d.parent.value {
        assert IsAncestor(a, d.parent.value);
      }
      AncestorsAreKeys(before, after, d.parent.value, a);
    }
  }

  /// Every child directory is recorded under its own parent.
  ghost predicate ChildrenUnderParent(children: map<FsEntity, seq<FsEntity>>) {
    forall k, c :: k in children && c in children[k] ==> c.parent == Some(k)
  }

  /// AddDirectory keeps every child under its own parent.
  lemma ChildrenUnderParentKept(before: map<FsEntity, seq<FsEntity>>, after: map<FsEntity, seq<FsEntity>>, d: FsEntity)
    requires ChildrenUnderParent(before) && Extends(before, after, d)
    ensures ChildrenUnderParent(after)
  {
    forall k, c | k in after && c in after[k]
      ensures c.parent == Some(k)
    {
      assert NewChildrenAreAncestors(before, after, d);
    }
  }

  /// The children a directory's object gets in GroupDuplicatesByDirectories:
  /// the objects made for its child directories, in order, then one object
  /// per file with duplicates in it, in order, unsorted.
  ghost predicate DirectoryContents(childObjects: seq<HierarchicalObject>, childDirectories: seq<FsEntity>,
                                    files: seq<FileEntity>, objects: map<FsEntity, HierarchicalObject>) {
    |childObjects| == |childDirectories| + |files| &&
    (forall j :: 0 <= j < |childDirectories| ==>
      childDirectories[j] in objects && childObjects[j] == objects[childDirectories[j]]) &&
    (forall j :: 0 <= j < |files| ==>
      childObjects[|childDirectories| + j].obj == FileObject(files[j]) && childObjects[|childDirectories| + j].sort == OS.None)
  }

  /// More objects made later do not change what the children are.
  lemma ContentsKept(childObjects: seq<HierarchicalObject>, childDirectories: seq<FsEntity>, files: seq<FileEntity>,
                     objects: map<FsEntity, HierarchicalObject>, objectsAfter: map<FsEntity, HierarchicalObject>)
    requires DirectoryContents(childObjects, childDirectories, files, objects)
    requires forall k :: k in objects ==> k in objectsAfter && objectsAfter[k] == objects[k]
    ensures DirectoryContents(childObjects, childDirectories, files, objectsAfter)
  {
  }

  /// A directory's object once its children are set.
  ghost predicate Processed(o: HierarchicalObject, directory: FsEntity, children: map<FsEntity, seq<FsEntity>>,
                            groups: seq<Entry<FsEntity, FileEntity>>, objects: map<FsEntity, HierarchicalObject>)
    reads o
  {
    directory in children && o.children.Some? &&
    DirectoryContents(o.children.value, children[directory], Lookup(groups, directory), objects)
  }

  /// The objects made for child directories: one per directory, in order,
  /// none made before. A directory whose object exists throws
  /// ArgumentException.
  method MakeChildDirectoryObjects(childDirectories: seq<FsEntity>, objects: map<FsEntity, HierarchicalObject>)
    returns (childObjects: seq<HierarchicalObject>, objectsAfter: map<FsEntity, HierarchicalObject>, outcome: Outcome)
    requires NoRepeats(childDirectories)
    ensures outcome.Fail? <==> exists c :: c in childDirectories && c in objects
    ensures outcome.Fail? ==> outcome.error == ArgumentException
    ensures outcome.Pass? ==>
      (|childObjects| == |childDirectories| &&
       objectsAfter.Keys == objects.Keys + (set c | c in childDirectories) &&
       (forall k :: k in objects ==> objectsAfter[k] == objects[k]) &&
       (forall j :: 0 <= j < |childDirectories| ==> childObjects[j] == objectsAfter[childDirectories[j]]) &&
       (forall c :: c in childDirectories ==>
         fresh(objectsAfter[c]) && objectsAfter[c].obj == DirectoryObject(c) && objectsAfter[c].children.None?))
  {
    childObjects, objectsAfter := [], objects;
    for j := 0 to |childDirectories|
      invariant |childObjects| == j
      invariant forall c :: c in childDirectories[..j] ==> c !in objects
      invariant objectsAfter.Keys == objects.Keys + (set c | c in childDirectories[..j])
      invariant forall k :: k in objects ==> objectsAfter[k] == objects[k]
      invariant forall i :: 0 <= i < j ==> childObjects[i] == objectsAfter[childDirectories[i]]
      invariant forall c :: c in childDirectories[..j] ==>
        fresh(objectsAfter[c]) && objectsAfter[c].obj == DirectoryObject(c) && objectsAfter[c].children.None?
    {
      var childDirectory := childDirectories[j];
      assert childDirectories[..j + 1] == childDirectories[..j] + [childDirectory];
      if childDirectory in objectsAfter {
        return [], objects, Fail(ArgumentException);
      }
      var childDirectoryObject := HierarchicalObject.Create(DirectoryObject(childDirectory), OS.None, None, None, "");
      objectsAfter := objectsAfter[childDirectory := childDirectoryObject];
      childObjects := childObjects + [childDirectoryObject];
    }
    assert childDirectories[..|childDirectories|] == childDirectories;
    outcome := Pass;
  }

  /// The objects made for a directory's files: one per file, in order, with
  /// no sort and no children.
  method MakeGroupFileObjects(files: seq<FileEntity>) returns (fileObjects: seq<HierarchicalObject>)
    ensures |fileObjects| == |files|
    ensures forall j :: 0 <= j < |files| ==>
      fresh(fileObjects[j]) && fileObjects[j].obj == FileObject(files[j]) && fileObjects[j].sort == OS.None &&
      fileObjects[j].children.None? && fileObjects[j].name == files[j].name
  {
    fileObjects := [];
    for j := 0 to |files|
      invariant |fileObjects| == j
      invariant forall i :: 0 <= i < j ==>
        fresh(fileObjects[i]) && fileObjects[i].obj == FileObject(files[i]) && fileObjects[i].sort == OS.None &&
        fileObjects[i].children.None? && fileObjects[i].name == files[i].name
    {
      var fileObject := HierarchicalObject.Create(FileObject(files[j]), OS.None, None, None, "");
      fileObjects := fileObjects + [fileObject];
    }
  }

  /// The keys in order, without repeats, each with a HashSet of children.
  ghost predicate Keyed(order: seq<FsEntity>, children: map<FsEntity, seq<FsEntity>>) {
    (forall i, j :: 0 <= i < j < |order| ==> order[i] != order[j]) &&
    (forall k :: k in children <==> k in order) &&
    (forall k :: k in children ==> NoRepeats(children[k]))
  }

  /// The directories whose objects exist before the index-th key is
  /// processed: the keys processed and their child directories.
  ghost predicate Made(k: FsEntity, order: seq<FsEntity>, children: map<FsEntity, seq<FsEntity>>, index: nat)
    requires index <= |order|
  {
    k in order[..index] ||
    (k.parent.Some? && k.parent.value in order[..index] && k.parent.value in children && k in children[k.parent.value])
  }

  /// Processing the index-th key adds it and its child directories.
  lemma MadeStep(order: seq<FsEntity>, children: map<FsEntity, seq<FsEntity>>, index: nat, k: FsEntity)
    requires index < |order| && order[index] in children && ChildrenUnderParent(children)
    ensures Made(k, order, children, index + 1) <==>
      Made(k, order, children, index) || k == order[index] || k in children[order[index]]
  {
    assert order[..index + 1] == order[..index] + [order[index]];
  }

  /// The objects made before the index-th key is processed: one for each
  /// directory made, for its own directory; the keys already processed have
  /// their children; the others have none yet.
  ghost predicate ObjectsState(order: seq<FsEntity>, children: map<FsEntity, seq<FsEntity>>,
                               groups: seq<Entry<FsEntity, FileEntity>>,
                               objects: map<FsEntity, HierarchicalObject>, index: nat)
    requires index <= |order|
    reads set k | k in objects :: objects[k]
  {
    (forall k :: k in objects <==> Made(k, order, children, index)) &&
    (forall k :: k in objects ==> objects[k].obj == DirectoryObject(k)) &&
    (forall j :: 0 <= j < index ==> order[j] in objects && Processed(objects[order[j]], order[j], children, groups, objects)) &&
    (forall k :: k in objects && k !in order[..index] ==> objects[k].children.None?)
  }

  /// The children of the index-th key's object: objects for its child
  /// directories, then for its files. A child directory whose object exists
  /// already, which is exactly a child processed before as a key, throws
  /// ArgumentException.
  method MakeDirectoryChildren(order: seq<FsEntity>, children: map<FsEntity, seq<FsEntity>>,
                               groups: seq<Entry<FsEntity, FileEntity>>, objects: map<FsEntity, HierarchicalObject>, index: nat)
    returns (childObjects: seq<HierarchicalObject>, withChildren: map<FsEntity, HierarchicalObject>, outcome: Outcome)
    requires index < |order| && Keyed(order, children) && ChildrenUnderParent(children)
    requires ObjectsState(order, children, groups, objects, index)
    ensures outcome.Fail? <==> exists j :: 0 <= j < index && order[j] in children[order[index]]
    ensures outcome.Fail? ==> outcome.error == ArgumentException
    ensures outcome.Pass? ==> ChildrenReady(order, children, groups, objects, withChildren, childObjects, index)
    ensures outcome.Pass? ==> forall k :: k in withChildren && k !in objects ==> fresh(withChildren[k])
  {
    var directory := order[index];
    ChildrenMade(order, children, objects, index);
    childObjects, withChildren, outcome := MakeChildDirectoryObjects(children[directory], objects);
    if outcome.Fail? {
      return;
    }
    var fileObjects := MakeGroupFileObjects(Lookup(groups, directory));
    childObjects := childObjects + fileObjects;
  }

  /// Before the index-th key is processed, a child directory of it has an
  /// object exactly when it is a key processed before; none is the key
  /// itself.
  lemma ChildrenMade(order: seq<FsEntity>, children: map<FsEntity, seq<FsEntity>>,
                     objects: map<FsEntity, HierarchicalObject>, index: nat)
    requires index < |order| && Keyed(order, children) && ChildrenUnderParent(children)
    requires forall k :: k in objects <==> Made(k, order, children, index)
    ensures (exists c :: c in children[order[index]] && c in objects) <==>
      exists j :: 0 <= j < index && order[j] in children[order[index]]
    ensures forall c :: c in children[order[index]] ==> c != order[index] && (c !in objects ==> c !in order[..index])
  {
    var directory := order[index];
    assert directory !in order[..index];
    forall c | c in children[directory]
      ensures c != directory && (c in objects <==> c in order[..index])
    {
      assert c.parent == Some(directory);
      assert Depth(c) == Depth(directory) + 1;
    }
    if exists c :: c in children[directory] && c in objects {
      var c :| c in children[directory] && c in objects;
      var j :| 0 <= j < index && order[..index][j] == c;
      assert order[j] in children[directory];
    }
    forall j | 0 <= j < index && order[j] in children[directory]
      ensures order[j] in objects
    {
      assert order[j] in order[..index];
    }
  }

  /// The state once the children of the index-th key's object are made:
  /// the objects before, and one more for each child directory of the key,
  /// with no children yet; the children list holds them, then the files.
  ghost predicate ChildrenReady(order: seq<FsEntity>, children: map<FsEntity, seq<FsEntity>>,
                                groups: seq<Entry<FsEntity, FileEntity>>, objects: map<FsEntity, HierarchicalObject>,
                                withChildren: map<FsEntity, HierarchicalObject>, childObjects: seq<HierarchicalObject>, index: nat)
    requires index < |order|
    reads (set k | k in objects :: objects[k]), (set k | k in withChildren :: withChildren[k])
  {
    order[index] in children &&
    ObjectsState(order, children, groups, objects, index) &&
    (forall k :: k in withChildren <==> k in objects || k in children[order[index]]) &&
    (forall k :: k in objects ==> withChildren[k] == objects[k]) &&
    DirectoryContents(childObjects, children[order[index]], Lookup(groups, order[index]), withChildren) &&
    (forall k :: k in withChildren && k !in objects ==>
      withChildren[k].obj == DirectoryObject(k) && withChildren[k].children.None? && k != order[index] && k !in order[..index])
  }

  /// The index-th key's object exists already, made as a child: it gets its
  /// children.
  method SetExistingChildren(order: seq<FsEntity>, children: map<FsEntity, seq<FsEntity>>,
                             groups: seq<Entry<FsEntity, FileEntity>>, objects: map<FsEntity, HierarchicalObject>,
                             withChildren: map<FsEntity, HierarchicalObject>, childObjects: seq<HierarchicalObject>, index: nat)
    returns (directoryObject: HierarchicalObject)
    requires index < |order| && Keyed(order, children) && ChildrenUnderParent(children)
    requires ChildrenReady(order, children, groups, objects, withChildren, childObjects, index) && order[index] in withChildren
    modifies withChildren[order[index]]
    ensures ObjectsState(order, children, groups, withChildren, index + 1) && directoryObject == withChildren[order[index]]
  {
    var directory := order[index];
    assert directory !in order[..index];
    var existing := withChildren[directory];
    assert existing == objects[directory] && existing.children.None?;
    assert forall k :: k in withChildren && k != directory ==> withChildren[k] != existing;
    existing.SetChildObjects(Some(childObjects));
    directoryObject := existing;
    forall k | k in withChildren && k !in order[..index + 1]
      ensures withChildren[k].children.None?
    {
      assert k != directory && k !in order[..index];
    }
    ProcessedState(order, children, groups, objects, withChildren, withChildren, childObjects, index);
  }

  /// The index-th key's object does not exist yet: it is made with its
  /// children.
  method CreateWithChildren(order: seq<FsEntity>, children: map<FsEntity, seq<FsEntity>>,
                            groups: seq<Entry<FsEntity, FileEntity>>, objects: map<FsEntity, HierarchicalObject>,
                            withChildren: map<FsEntity, HierarchicalObject>, childObjects: seq<HierarchicalObject>, index: nat)
    returns (objectsAfter: map<FsEntity, HierarchicalObject>, directoryObject: HierarchicalObject)
    requires index < |order| && Keyed(order, children) && ChildrenUnderParent(children)
    requires ChildrenReady(order, children, groups, objects, withChildren, childObjects, index) && order[index] !in withChildren
    ensures objectsAfter == withChildren[order[index] := directoryObject] && fresh(directoryObject)
    ensures ObjectsState(order, children, groups, objectsAfter, index + 1)
  {
    var directory := order[index];
    assert directory !in order[..index];
    directoryObject := HierarchicalObject.Create(DirectoryObject(directory), OS.None, Some(childObjects), None, "");
    objectsAfter := withChildren[directory := directoryObject];
    forall k | k in objectsAfter && k !in order[..index + 1]
      ensures objectsAfter[k].children.None?
    {
      assert k != directory && k !in order[..index];
    }
    ProcessedState(order, children, groups, objects, withChildren, objectsAfter, childObjects, index);
  }

  /// One step of the last loop of GroupDuplicatesByDirectories, for the
  /// index-th key: it fails exactly when a child directory of the key was
  /// processed before it.
  method ProcessDirectory(order: seq<FsEntity>, children: map<FsEntity, seq<FsEntity>>,
                          groups: seq<Entry<FsEntity, FileEntity>>, objects: map<FsEntity, HierarchicalObject>, index: nat)
    returns (objectsAfter: map<FsEntity, HierarchicalObject>, directoryObject: HierarchicalObject?, outcome: Outcome)
    requires index < |order| && Keyed(order, children) && ChildrenUnderParent(children)
    requires ObjectsState(order, children, groups, objects, index)
    modifies set k | k in objects && k == order[index] :: objects[k]
    ensures outcome.Fail? <==> exists j :: 0 <= j < index && order[j] in children[order[index]]
    ensures outcome.Fail? ==> outcome.error == ArgumentException
    ensures outcome.Pass? ==> ObjectsState(order, children, groups, objectsAfter, index + 1) && directoryObject == objectsAfter[order[index]]
    ensures outcome.Pass? ==> forall k :: k in objects ==> k in objectsAfter && objectsAfter[k] == objects[k]
    ensures outcome.Pass? ==> forall k :: k in objectsAfter && k !in objects ==> fresh(objectsAfter[k])
  {
    var directory := order[index];
    var childObjects, withChildren;
    childObjects, withChildren, outcome := MakeDirectoryChildren(order, children, groups, objects, index);
    if outcome.Fail? {
      return objects, null, outcome;
    }
    if directory in withChildren {
      directoryObject := SetExistingChildren(order, children, groups, objects, withChildren, childObjects, index);
      objectsAfter := withChildren;
    } else {
      objectsAfter, directoryObject := CreateWithChildren(order, children, groups, objects, withChildren, childObjects, index);
    }
  }

  /// After a step of the last loop, the objects are those of the keys up to
  /// the index-th and of their child directories, and the keys processed
  /// have their children.
  lemma ProcessedState(order: seq<FsEntity>, children: map<FsEntity, seq<FsEntity>>,
                       groups: seq<Entry<FsEntity, FileEntity>>, objects: map<FsEntity, HierarchicalObject>,
                       withChildren: map<FsEntity, HierarchicalObject>, objectsAfter: map<FsEntity, HierarchicalObject>,
                       childObjects: seq<HierarchicalObject>, index: nat)
    requires index < |order| && Keyed(order, children) && ChildrenUnderParent(children)
    requires forall k :: k in objects <==> Made(k, order, children, index)
    requires forall j :: 0 <= j < index ==> order[j] in objects && Processed(objects[order[j]], order[j], children, groups, objects)
    requires forall k :: k in withChildren <==> k in objects || k in children[order[index]]
    requires forall k :: k in objects ==> withChildren[k] == objects[k]
    requires DirectoryContents(childObjects, children[order[index]], Lookup(groups, order[index]), withChildren)
    requires forall k :: k in objectsAfter <==> k in withChildren || k == order[index]
    requires forall k :: k in withChildren ==> objectsAfter[k] == withChildren[k]
    requires objectsAfter[order[index]].children == Some(childObjects)
    requires forall k :: k in objectsAfter ==> objectsAfter[k].obj == DirectoryObject(k)
    requires forall k :: k in objectsAfter && k !in order[..index + 1] ==> objectsAfter[k].children.None?
    ensures ObjectsState(order, children, groups, objectsAfter, index + 1)
  {
    var directory := order[index];
    forall k
      ensures k in objectsAfter <==> Made(k, order, children, index + 1)
    {
      MadeStep(order, children, index, k);
    }
    ContentsKept(childObjects, children[directory], Lookup(groups, directory), withChildren, objectsAfter);
    forall j | 0 <= j < index + 1
      ensures order[j] in objectsAfter && Processed(objectsAfter[order[j]], order[j], children, groups, objectsAfter)
    {
      if j < index {
        var o := objects[order[j]];
        assert objectsAfter[order[j]] == o && Processed(o, order[j], children, groups, objects);
        ContentsKept(o.children.value, children[order[j]], Lookup(groups, order[j]), objects, objectsAfter);
      }
    }
  }

  /// The roots' objects collected before the index-th key is processed.
  ghost predicate RootsReported(order: seq<FsEntity>, objects: map<FsEntity, HierarchicalObject>,
                                rootObjects: seq<HierarchicalObject>, roots: nat, index: nat)
  {
    |rootObjects| == (if index < roots then index else roots) &&
    forall j :: 0 <= j < |rootObjects| ==> j < |order| && order[j] in objects && rootObjects[j] == objects[order[j]]
  }

  /// One iteration of the last loop of GroupDuplicatesByDirectories: the
  /// index-th key's object gets its children, and joins the result when the
  /// key is a location's root. It fails exactly when the key has a child
  /// directory among the keys before it.
  method ReportStep(order: seq<FsEntity>, children: map<FsEntity, seq<FsEntity>>, groups: seq<Entry<FsEntity, FileEntity>>,
                    roots: nat, rootDirectories: set<FsEntity>, objects: map<FsEntity, HierarchicalObject>,
                    rootObjects: seq<HierarchicalObject>, index: nat)
    returns (objectsAfter: map<FsEntity, HierarchicalObject>, rootObjectsAfter: seq<HierarchicalObject>, outcome: Outcome)
    requires index < |order| && roots <= |order| && Keyed(order, children) && ChildrenUnderParent(children)
    requires rootDirectories == set i | 0 <= i < roots :: order[i]
    requires ObjectsState(order, children, groups, objects, index) && RootsReported(order, objects, rootObjects, roots, index)
    requires ParentsFirst(order, children, index)
    modifies set k | k in objects && k == order[index] :: objects[k]
    ensures outcome.Fail? <==> !ParentsFirst(order, children, index + 1)
    ensures outcome.Fail? ==> outcome.error == ArgumentException
    ensures outcome.Pass? ==> ObjectsState(order, children, groups, objectsAfter, index + 1)
    ensures outcome.Pass? ==> RootsReported(order, objectsAfter, rootObjectsAfter, roots, index + 1)
    ensures outcome.Pass? ==> forall k :: k in objectsAfter && k !in objects ==> fresh(objectsAfter[k])
    ensures outcome.Pass? ==> forall k :: k in objects ==> k in objectsAfter && objectsAfter[k] == objects[k]
  {
    var directoryObject;
    objectsAfter, directoryObject, outcome := ProcessDirectory(order, children, groups, objects, index);
    ParentsFirstStep(order, children, index);
    rootObjectsAfter := rootObjects;
    if outcome.Fail? {
      return;
    }
    RootsReportedStep(order, objects, objectsAfter, rootObjects, roots, index);
    if order[index] in rootDirectories {
      rootObjectsAfter := rootObjects + [directoryObject];
    }
  }

  /// The keys stay ordered parents first one key further exactly when the
  /// next key has no child directory among the keys before it.
  lemma ParentsFirstStep(order: seq<FsEntity>, children: map<FsEntity, seq<FsEntity>>, index: nat)
    requires index < |order| && order[index] in children && ParentsFirst(order, children, index)
    ensures ParentsFirst(order, children, index + 1) <==> !exists j :: 0 <= j < index && order[j] in children[order[index]]
  {
  }

  /// Keys ordered parents first are so in every prefix.
  lemma ParentsFirstPrefix(order: seq<FsEntity>, children: map<FsEntity, seq<FsEntity>>, m: nat, n: nat)
    requires m <= n <= |order|
    ensures ParentsFirst(order, children, n) ==> ParentsFirst(order, children, m)
  {
  }

  /// The finished objects of GroupDuplicatesByDirectories: one for every
  /// key, made for it, whose children are the objects of the key's child
  /// directories followed by those of its files with duplicates.
  ghost predicate DirectoriesReported(children: map<FsEntity, seq<FsEntity>>, groups: seq<Entry<FsEntity, FileEntity>>,
                           objects: map<FsEntity, HierarchicalObject>)
    reads set k | k in objects :: objects[k]
  {
    (forall k :: k in objects <==> k in children) &&
    forall k :: k in objects ==> objects[k].obj == DirectoryObject(k) && Processed(objects[k], k, children, groups, objects)
  }

  /// Once every key is processed, the objects are exactly those of the keys,
  /// each with its children.
  lemma ReportedAtEnd(order: seq<FsEntity>, children: map<FsEntity, seq<FsEntity>>, groups: seq<Entry<FsEntity, FileEntity>>,
                      objects: map<FsEntity, HierarchicalObject>)
    requires Keyed(order, children) && ChildrenAreKeys(children) && ObjectsState(order, children, groups, objects, |order|)
    ensures DirectoriesReported(children, groups, objects)
  {
    assert order[..|order|] == order;
    forall k | k in objects
      ensures k in children && Processed(objects[k], k, children, groups, objects)
    {
      assert Made(k, order, children, |order|);
      assert k in order;
      var j :| 0 <= j < |order| && order[j] == k;
    }
  }

  /// The roots of the locations that are present have no parent, as for
  /// locations whose root directories are built without one.
  ghost predicate ParentlessRoots(locations: seq<DataLocation>) {
    forall i :: 0 <= i < |locations| && locations[i].directory.Some? ==> locations[i].directory.value.parent.None?
  }

  /// The dictionary of GroupDuplicatesByDirectories once every folder with
  /// duplicates is added: the locations' roots first, in order; every
  /// folder a key; every other key an ancestor of a folder; when the roots
  /// are closed under parents, exactly the roots and the ancestors-or-self
  /// of the folders.
  ghost predicate FoldersKeyed(order: seq<FsEntity>, children: map<FsEntity, seq<FsEntity>>,
                               groups: seq<Entry<FsEntity, FileEntity>>, locations: seq<DataLocation>)
    requires DataController.RootIndex(locations).Ok?
  {
    var roots := DataController.RootIndex(locations).value;
    Keyed(order, children) && ChildrenUnderParent(children) && ChildrenAreKeys(children) &&
    |locations| <= |order| && (forall i :: 0 <= i < |locations| ==> locations[i].directory == Some(order[i])) &&
    (forall j :: 0 <= j < |groups| ==> groups[j].key in children) &&
    (forall k :: k in children ==> k in roots || UnderGroups(k, groups, |groups|)) &&
    (UpClosed(roots.Keys) ==> forall k :: k in children <==> k in roots || UnderGroups(k, groups, |groups|))
  }

  /// What GroupDuplicatesByDirectories returns, given the directory
  /// dictionary it builds and the objects it makes: the root index's error
  /// first; otherwise ArgumentException exactly when some key has a child
  /// directory among the keys before it, which locations with parentless
  /// roots never cause; otherwise one object per root, in the locations'
  /// order, in a tree of objects with one per key.
  ghost predicate GroupedByDirectories(locations: seq<DataLocation>, groups: seq<Entry<FsEntity, FileEntity>>,
                                       r: Result<seq<HierarchicalObject>>, order: seq<FsEntity>,
                                       children: map<FsEntity, seq<FsEntity>>, objects: map<FsEntity, HierarchicalObject>)
    reads set k | k in objects :: objects[k]
  {
    if DataController.RootIndex(locations).Err? then r == Err(DataController.RootIndex(locations).error)
    else
      FoldersKeyed(order, children, groups, locations) &&
      (r.Err? <==> !ParentsFirst(order, children, |order|)) &&
      (r.Err? ==> r.error == ArgumentException) &&
      (ParentlessRoots(locations) ==> r.Ok?) &&
      (r.Ok? ==> DirectoriesReported(children, groups, objects) && |r.value| == |locations| &&
                 forall i :: 0 <= i < |locations| ==> r.value[i] == objects[order[i]])
  }

  /// The dictionary AddFolders leaves, from the one AddRoots leaves.
  lemma FoldersKeyedFrom(rootOrder: seq<FsEntity>, roots: map<FsEntity, seq<FsEntity>>,
                         order: seq<FsEntity>, children: map<FsEntity, seq<FsEntity>>,
                         groups: seq<Entry<FsEntity, FileEntity>>, locations: seq<DataLocation>)
    requires DataController.RootIndex(locations).Ok?
    requires |rootOrder| == |locations| && forall i :: 0 <= i < |locations| ==> locations[i].directory == Some(rootOrder[i])
    requires forall k :: k in roots <==> k in DataController.RootIndex(locations).value
    requires ParentlessRoots(locations) ==> Linked(roots) && UpClosed(roots.Keys)
    requires ParentsFirst(rootOrder, roots, |rootOrder|)
    requires Keyed(order, children) && ChildrenUnderParent(children) && ChildrenAreKeys(children) && rootOrder <= order
    requires forall j :: 0 <= j < |groups| ==> groups[j].key in children
    requires forall k :: k in children && k !in roots ==> UnderGroups(k, groups, |groups|)
    requires UpClosed(roots.Keys) ==>
      (UpClosed(children.Keys) && forall k :: k in children <==> k in roots || UnderGroups(k, groups, |groups|))
    requires Linked(roots) && ParentsFirst(rootOrder, roots, |rootOrder|) ==>
      Linked(children) && ParentsFirst(order, children, |order|)
    ensures FoldersKeyed(order, children, groups, locations)
    ensures ParentlessRoots(locations) ==> ParentsFirst(order, children, |order|)
  {
    assert roots.Keys == DataController.RootIndex(locations).value.Keys;
    assert forall i :: 0 <= i < |locations| ==> order[i] == rootOrder[i];
  }

  /// The dictionary right after the roots are added: no children, so the
  /// ordering and key invariants hold; with parentless roots, every key is
  /// trivially recorded under its parent and the keys are closed.
  lemma RootsStart(order: seq<FsEntity>, children: map<FsEntity, seq<FsEntity>>, locations: seq<DataLocation>)
    requires DataController.RootIndex(locations).Ok? && Keyed(order, children)
    requires |order| == |locations| && forall i :: 0 <= i < |locations| ==> locations[i].directory == Some(order[i])
    requires forall k :: k in children ==> children[k] == []
    ensures ChildrenUnderParent(children) && ChildrenAreKeys(children) && ParentsFirst(order, children, |order|)
    ensures ParentlessRoots(locations) ==> Linked(children) && UpClosed(children.Keys)
  {
    if ParentlessRoots(locations) {
      forall k | k in children
        ensures k.parent.None?
      {
        var i :| 0 <= i < |order| && order[i] == k;
        assert locations[i].directory == Some(k);
      }
    }
  }

  /// The index-th key's object joins the root objects exactly when the key
  /// is one of the first roots keys.
  lemma RootsReportedStep(order: seq<FsEntity>, objects: map<FsEntity, HierarchicalObject>,
                          objectsAfter: map<FsEntity, HierarchicalObject>, rootObjects: seq<HierarchicalObject>,
                          roots: nat, index: nat)
    requires index < |order| && roots <= |order| && forall i, j :: 0 <= i < j < |order| ==> order[i] != order[j]
    requires RootsReported(order, objects, rootObjects, roots, index)
    requires order[index] in objectsAfter && forall k :: k in objects ==> k in objectsAfter && objectsAfter[k] == objects[k]
    ensures order[index] in (set i | 0 <= i < roots :: order[i]) <==> index < roots
    ensures index < roots ==> RootsReported(order, objectsAfter, rootObjects + [objectsAfter[order[index]]], roots, index + 1)
    ensures roots <= index ==> RootsReported(order, objectsAfter, rootObjects, roots, index + 1)
  {
    if index >= roots {
      assert forall i :: 0 <= i < roots ==> order[i] != order[index];
    }
  }

  /// The roots of the locations, in order, are the keys of the directory
  /// dictionary, each without children, and the root index is built.
  ghost predicate RootsAdded(order: seq<FsEntity>, children: map<FsEntity, seq<FsEntity>>, locations: seq<DataLocation>) {
    DataController.RootIndex(locations).Ok? &&
    (forall k :: k in children <==> k in DataController.RootIndex(locations).value) &&
    (forall k :: k in children ==> children[k] == []) &&
    |order| == |locations| && forall j :: 0 <= j < |locations| ==> locations[j].directory == Some(order[j])
  }

  /// Adding a new last root keeps the roots added.
  lemma RootsAddedStep(order: seq<FsEntity>, children: map<FsEntity, seq<FsEntity>>, locations: seq<DataLocation>)
    requires locations != [] && locations[|locations| - 1].directory.Some?
    requires RootsAdded(order, children, locations[..|locations| - 1])
    requires locations[|locations| - 1].directory.value !in children
    ensures RootsAdded(order + [locations[|locations| - 1].directory.value],
                       children[locations[|locations| - 1].directory.value := []], locations)
  {
    var n := |locations| - 1;
    assert forall j :: 0 <= j < n ==> locations[..n][j] == locations[j];
  }

  /// The loop of AnalyzeDuplicatesAndGroupByFolders: every file of every
  /// hash group, in order, is listed under its parent directory.
  method GroupByFolders(allDuplicatesByHash: seq<Entry<BlobInfo, FileEntity>>) returns (groups: seq<Entry<FsEntity, FileEntity>>)
    ensures groups == GroupBy(ParentPairs(Flatten(allDuplicatesByHash)), false)
  {
    groups := [];
    for i := 0 to |allDuplicatesByHash|
      invariant groups == FolderGroups(Flatten(allDuplicatesByHash[..i]))
    {
      assert allDuplicatesByHash[..i + 1][..i] == allDuplicatesByHash[..i];
      groups := DuplicateReport.AddFolderGroups(groups, Flatten(allDuplicatesByHash[..i]), allDuplicatesByHash[i].values);
    }
    assert allDuplicatesByHash[..|allDuplicatesByHash|] == allDuplicatesByHash;
    FolderGroupsArePairGroups(Flatten(allDuplicatesByHash));
  }

  class DuplicateReport {
    const dataLocations: seq<DataLocation>
    const unprocessedDuplicatesByHash: seq<Entry<BlobInfo, FileEntity>>
    const partiallyIsolatedDuplicates: seq<Entry<BlobInfo, FileEntity>>
    const uniqueIsolatedFiles: seq<Entry<BlobInfo, FileEntity>>
    const directoriesForIsolatedDuplicates: set<FsEntity>
    var directoriesWithDuplicates: Option<seq<Entry<FsEntity, FileEntity>>>

    /// The constructor: stores the maps; the folder grouping is not computed.
    constructor (dataLocations: seq<DataLocation>, newDuplicatesByHash: seq<Entry<BlobInfo, FileEntity>>,
                 partiallyIsolatedDuplicates: seq<Entry<BlobInfo, FileEntity>>,
                 uniqueIsolatedFiles: seq<Entry<BlobInfo, FileEntity>>, directoriesForIsolatedDuplicates: set<FsEntity>)
      ensures this.dataLocations == dataLocations && unprocessedDuplicatesByHash == newDuplicatesByHash
      ensures this.partiallyIsolatedDuplicates == partiallyIsolatedDuplicates && this.uniqueIsolatedFiles == uniqueIsolatedFiles
      ensures this.directoriesForIsolatedDuplicates == directoriesForIsolatedDuplicates && directoriesWithDuplicates.None?
    {
      this.dataLocations := dataLocations;
      this.unprocessedDuplicatesByHash := newDuplicatesByHash;
      this.partiallyIsolatedDuplicates := partiallyIsolatedDuplicates;
      this.uniqueIsolatedFiles := uniqueIsolatedFiles;
      this.directoriesForIsolatedDuplicates := directoriesForIsolatedDuplicates;
      directoriesWithDuplicates := None;
    }

    /// AnalyzeDuplicatesAndGroupByFolders: on the first call, groups every
    /// file of the unprocessed and partially isolated maps (not the unique
    /// isolated one) under its parent directory, as Lists, and caches the
    /// result; later calls return the cached grouping.
    method AnalyzeDuplicatesAndGroupByFolders() returns (r: seq<Entry<FsEntity, FileEntity>>)
      modifies this
      ensures old(directoriesWithDuplicates).Some? ==> r == old(directoriesWithDuplicates).value
      ensures old(directoriesWithDuplicates).None? ==>
        r == GroupBy(ParentPairs(Flatten(unprocessedDuplicatesByHash + partiallyIsolatedDuplicates)), false)
      ensures directoriesWithDuplicates == Some(r)
    {
      if directoriesWithDuplicates.None? {
        var groups := GroupByFolders(unprocessedDuplicatesByHash + partiallyIsolatedDuplicates);
        directoriesWithDuplicates := Some(groups);
      }
      r := directoriesWithDuplicates.value;
    }

    /// The first loop of GroupDuplicatesByDirectories: every location's root
    /// becomes a key without children. A missing root throws
    /// ArgumentNullException and a repeated one ArgumentException, exactly
    /// as the root index of the locations fails.
    method AddRoots(directories: DirectoryChildren) returns (outcome: Outcome)
      requires directories.Valid() && directories.order == []
      modifies directories
      ensures directories.Valid()
      ensures outcome.Fail? <==> DataController.RootIndex(dataLocations).Err?
      ensures outcome.Fail? ==> outcome.error == DataController.RootIndex(dataLocations).error
      ensures outcome.Pass? ==>
        (|directories.order| == |dataLocations| &&
         (forall i :: 0 <= i < |dataLocations| ==> dataLocations[i].directory == Some(directories.order[i])) &&
         (forall k :: k in directories.children <==> k in DataController.RootIndex(dataLocations).value) &&
         (forall k :: k in directories.children ==> directories.children[k] == []))
    {
      for i := 0 to |dataLocations|
        invariant directories.Valid()
        invariant RootsAdded(directories.order, directories.children, dataLocations[..i])
      {
        var dataLocation := dataLocations[i];
        assert dataLocations[..i + 1][..i] == dataLocations[..i];
        if dataLocation.directory.None? {
          DataController.RootIndexPrefixError(dataLocations, i + 1);
          return Fail(ArgumentNullException);
        }
        ghost var order, children := directories.order, directories.children;
        outcome := directories.Add(dataLocation.directory.value);
        if outcome.Fail? {
          DataController.RootIndexPrefixError(dataLocations, i + 1);
          return;
        }
        RootsAddedStep(order, children, dataLocations[..i + 1]);
      }
      assert dataLocations[..|dataLocations|] == dataLocations;
      outcome := Pass;
    }

    /// GroupDuplicatesByDirectories: a tree per location root, holding the
    /// directories on the way down to every directory with duplicates and,
    /// under each directory, its files with duplicates; the roots' objects
    /// come in the locations' order. The ghost outs are the dictionary built
    /// and the objects made, as GroupedByDirectories relates them.
    method GroupDuplicatesByDirectories()
      returns (r: Result<seq<HierarchicalObject>>, ghost order: seq<FsEntity>,
               ghost children: map<FsEntity, seq<FsEntity>>, ghost objects: map<FsEntity, HierarchicalObject>)
      modifies this
      ensures directoriesWithDuplicates.Some?
      ensures old(directoriesWithDuplicates).Some? ==> directoriesWithDuplicates == old(directoriesWithDuplicates)
      ensures old(directoriesWithDuplicates).None? ==>
        directoriesWithDuplicates == Some(GroupBy(ParentPairs(Flatten(unprocessedDuplicatesByHash + partiallyIsolatedDuplicates)), false))
      ensures GroupedByDirectories(dataLocations, directoriesWithDuplicates.value, r, order, children, objects)
    {
      var groups := AnalyzeDuplicatesAndGroupByFolders();
      r, order, children, objects := ReportFolders(groups);
    }

    /// GroupDuplicatesByDirectories once the files are grouped by folder:
    /// the roots, then every folder with its ancestors, then the objects.
    method ReportFolders(groups: seq<Entry<FsEntity, FileEntity>>)
      returns (r: Result<seq<HierarchicalObject>>, ghost order: seq<FsEntity>,
               ghost children: map<FsEntity, seq<FsEntity>>, ghost objects: map<FsEntity, HierarchicalObject>)
      ensures GroupedByDirectories(dataLocations, groups, r, order, children, objects)
    {
      var directoriesToReport := new DirectoryChildren();
      var rootsOutcome := AddRoots(directoriesToReport);
      if rootsOutcome.Fail? {
        return Err(rootsOutcome.error), [], map[], map[];
      }
      ghost var roots, rootOrder := directoriesToReport.children, directoriesToReport.order;
      RootsStart(rootOrder, roots, dataLocations);
      AddFolders(directoriesToReport, groups);
      order, children := directoriesToReport.order, directoriesToReport.children;
      FoldersKeyedFrom(rootOrder, roots, order, children, groups, dataLocations);
      r, objects := ReportObjects(directoriesToReport.order, directoriesToReport.children, groups, |dataLocations|);
    }

    /// The last loop of GroupDuplicatesByDirectories: walks the keys in order,
    /// makes an object for each child directory and each file with
    /// duplicates, and gives them to the key's object, made now or earlier as
    /// someone's child. Making a directory's object twice throws
    /// ArgumentException, which happens exactly when a key has a child
    /// directory among the keys before it. The objects of the first roots
    /// keys are returned.
    static method ReportObjects(order: seq<FsEntity>, children: map<FsEntity, seq<FsEntity>>,
                                groups: seq<Entry<FsEntity, FileEntity>>, roots: nat)
      returns (r: Result<seq<HierarchicalObject>>, ghost objects: map<FsEntity, HierarchicalObject>)
      requires roots <= |order| && Keyed(order, children) && ChildrenUnderParent(children) && ChildrenAreKeys(children)
      ensures r.Err? <==> !ParentsFirst(order, children, |order|)
      ensures r.Err? ==> r.error == ArgumentException
      ensures r.Ok? ==>
        (DirectoriesReported(children, groups, objects) && |r.value| == roots &&
         forall i :: 0 <= i < roots ==> r.value[i] == objects[order[i]])
    {
      var rootDirectories := set i | 0 <= i < roots :: order[i];
      var objectsToReport: map<FsEntity, HierarchicalObject> := map[];
      var rootDirectoriesToReport: seq<HierarchicalObject> := [];
      for index := 0 to |order|
        invariant forall k :: k in objectsToReport ==> fresh(objectsToReport[k])
        invariant ObjectsState(order, children, groups, objectsToReport, index)
        invariant RootsReported(order, objectsToReport, rootDirectoriesToReport, roots, index)
        invariant ParentsFirst(order, children, index)
      {
        var outcome;
        objectsToReport, rootDirectoriesToReport, outcome :=
          ReportStep(order, children, groups, roots, rootDirectories, objectsToReport, rootDirectoriesToReport, index);
        if outcome.Fail? {
          ParentsFirstPrefix(order, children, index + 1, |order|);
          return Err(outcome.error), objectsToReport;
        }
      }
      ReportedAtEnd(order, children, groups, objectsToReport);
      r, objects := Ok(rootDirectoriesToReport), objectsToReport;
    }

    /// The inner loop of AnalyzeDuplicatesAndGroupByFolders: adds the files
    /// of one blob, each to the List of its parent directory.
    static method AddFolderGroups(groups: seq<Entry<FsEntity, FileEntity>>, ghost before: seq<FileEntity>, fileDuplicates: seq<FileEntity>)
      returns (r: seq<Entry<FsEntity, FileEntity>>)
      requires groups == FolderGroups(before)
      ensures r == FolderGroups(before + fileDuplicates)
    {
      r := groups;
      assert before + fileDuplicates[..0] == before;
      for j := 0 to |fileDuplicates|
        invariant r == FolderGroups(before + fileDuplicates[..j])
      {
        var file := fileDuplicates[j];
        ghost var done := before + fileDuplicates[..j];
        assert before + fileDuplicates[..j + 1] == done + [file];
        assert (done + [file])[..|done|] == done;
        r := Add(r, file.parent.value, file, false);
      }
      assert fileDuplicates[..|fileDuplicates|] == fileDuplicates;
    }

    /// The number of files lying in isolated directories.
    function Isolated(files: seq<FileEntity>): nat {
      IsolatedCount(files, directoriesForIsolatedDuplicates)
    }

    /// A blob's object: named by BlobInfo.ToString, holding the objects
    /// MakeFileObjects makes for the blob's files, in order.
    ghost predicate IsBlobObject(o: HierarchicalObject, b: BlobInfo, files: seq<FileEntity>, sort: bv32, sizeText: int64 -> string)
      reads o, if o.children.Some? then set x | x in o.children.value else {}
    {
      o.obj == BlobObject(b) && o.objectType == BlobInfoType && o.sort == sort &&
      o.name == BlobInfos.ToString(b, sizeText(b.size)) &&
      o.children.Some? && |o.children.value| == |files| &&
      forall i :: 0 <= i < |files| ==> IsFileObject(o.children.value[i], files[i], |files| == 1, directoriesForIsolatedDuplicates)
    }

    /// Wraps the objects of a blob's files under the blob's object.
    method MakeBlobObject(b: BlobInfo, files: seq<FileEntity>, fileObjects: array<HierarchicalObject?>, sort: bv32, sizeText: int64 -> string)
      returns (blobObject: HierarchicalObject)
      requires fileObjects.Length == |files|
      requires forall i :: 0 <= i < |files| ==>
        fileObjects[i] != null && IsFileObject(fileObjects[i], files[i], |files| == 1, directoriesForIsolatedDuplicates)
      ensures fresh(blobObject) && IsBlobObject(blobObject, b, files, sort, sizeText)
    {
      var children: seq<HierarchicalObject> := fileObjects[..];
      var blobRepresentation := BlobInfos.ToString(b, sizeText(b.size));
      blobObject := HierarchicalObject.Create(BlobObject(b), sort, Some(children), Some(blobRepresentation), "");
    }

    /// MakeUnprocessedDuplicatesObject: a blob with no isolated copy yet;
    /// a single file in its original location throws.
    method MakeUnprocessedDuplicatesObject(b: BlobInfo, files: seq<FileEntity>, sizeText: int64 -> string)
      returns (r: Result<HierarchicalObject>)
      ensures var sort := SortOf(Unprocessed, Entry(b, files));
        (r.Err? <==> sort.Err?) && (r.Err? ==> r.error == GeneralException) &&
        (r.Ok? ==> fresh(r.value) && IsBlobObject(r.value, b, files, sort.value, sizeText))
    {
      var fileObjects, unprocessedDuplicatesCount, isolatedDuplicatesCount := MakeFileObjects(files);
      var blobSort := OS.Blob;
      if unprocessedDuplicatesCount >= 1 {
        blobSort := blobSort | OS.HasOriginalFiles;
        if unprocessedDuplicatesCount > 1 {
          blobSort := blobSort | OS.HasUnprocessedDuplicates;
        } else {
          return Err(GeneralException);
        }
      }
      var blobObject := MakeBlobObject(b, files, fileObjects, blobSort, sizeText);
      r := Ok(blobObject);
    }

    /// MakeComplexBlobObject: a blob with isolated copies and files still in
    /// their original locations; either kind missing throws.
    method MakeComplexBlobObject(b: BlobInfo, files: seq<FileEntity>, sizeText: int64 -> string)
      returns (r: Result<HierarchicalObject>)
      ensures var sort := SortOf(PartiallyIsolated, Entry(b, files));
        (r.Err? <==> sort.Err?) && (r.Err? ==> r.error == GeneralException) &&
        (r.Ok? ==> fresh(r.value) && IsBlobObject(r.value, b, files, sort.value, sizeText))
    {
      var fileObjects, unprocessedDuplicatesCount, isolatedDuplicatesCount := MakeFileObjects(files);
      var blobSort := OS.Blob;
      if isolatedDuplicatesCount > 0 {
        blobSort := blobSort | OS.HasIsolatedDuplicates;
      } else {
        return Err(GeneralException);
      }
      if unprocessedDuplicatesCount >= 1 {
        blobSort := blobSort | OS.HasOriginalFiles;
        if unprocessedDuplicatesCount > 1 {
          blobSort := blobSort | OS.HasUnprocessedDuplicates;
        }
      } else {
        return Err(GeneralException);
      }
      var blobObject := MakeBlobObject(b, files, fileObjects, blobSort, sizeText);
      r := Ok(blobObject);
    }

    /// MakeUniqueIsolatedObject: a blob present only in isolation; a file in
    /// its original location, or no isolated file, throws.
    method MakeUniqueIsolatedObject(b: BlobInfo, files: seq<FileEntity>, sizeText: int64 -> string)
      returns (r: Result<HierarchicalObject>)
      ensures var sort := SortOf(UniqueIsolated, Entry(b, files));
        (r.Err? <==> sort.Err?) && (r.Err? ==> r.error == GeneralException) &&
        (r.Ok? ==> fresh(r.value) && IsBlobObject(r.value, b, files, sort.value, sizeText))
    {
      var fileObjects, unprocessedDuplicatesCount, isolatedDuplicatesCount := MakeFileObjects(files);
      var blobSort := OS.Blob;
      if unprocessedDuplicatesCount > 0 {
        return Err(GeneralException);
      }
      if isolatedDuplicatesCount > 0 {
        blobSort := blobSort | OS.HasIsolatedDuplicates | OS.ContainsUniqueIsolatedFiles;
      } else {
        return Err(GeneralException);
      }
      var blobObject := MakeBlobObject(b, files, fileObjects, blobSort, sizeText);
      r := Ok(blobObject);
    }

    /// The sort a blob's validator gives an entry of one of the three maps.
    function SortOf(kind: BlobGroup, e: Entry<BlobInfo, FileEntity>): Result<bv32> {
      GroupSort(kind, |e.values| - Isolated(e.values), Isolated(e.values))
    }

    /// Every entry is accepted by its validator, and its object, at offset
    /// from on, is the entry's blob with the sort the validator gives.
    ghost predicate Reported(objects: seq<HierarchicalObject>, from: nat, entries: seq<Entry<BlobInfo, FileEntity>>, kind: BlobGroup) {
      from + |entries| <= |objects| &&
      forall j :: 0 <= j < |entries| ==>
        SortOf(kind, entries[j]).Ok? && objects[from + j].obj == BlobObject(entries[j].key) &&
        objects[from + j].sort == SortOf(kind, entries[j]).value
    }

    /// The object of one entry, made by its map's validator.
    method MakeGroupObject(e: Entry<BlobInfo, FileEntity>, kind: BlobGroup, sizeText: int64 -> string)
      returns (r: Result<HierarchicalObject>)
      ensures r.Err? <==> SortOf(kind, e).Err?
      ensures r.Err? ==> r.error == GeneralException
      ensures r.Ok? ==> r.value.obj == BlobObject(e.key) && r.value.sort == SortOf(kind, e).value
    {
      match kind {
        case Unprocessed =>
          r := MakeUnprocessedDuplicatesObject(e.key, e.values, sizeText);
        case PartiallyIsolated =>
          r := MakeComplexBlobObject(e.key, e.values, sizeText);
        case UniqueIsolated =>
          r := MakeUniqueIsolatedObject(e.key, e.values, sizeText);
      }
    }

    /// One loop of GroupDuplicatesByHash or GetUniqueIsolatedFiles: appends
    /// an object per entry, made by the map's validator; the first entry the
    /// validator rejects throws.
    method ReportBlobs(objects: seq<HierarchicalObject>, entries: seq<Entry<BlobInfo, FileEntity>>, kind: BlobGroup, sizeText: int64 -> string)
      returns (r: Result<seq<HierarchicalObject>>)
      ensures r.Err? ==> r.error == GeneralException
      ensures r.Ok? <==> forall j :: 0 <= j < |entries| ==> SortOf(kind, entries[j]).Ok?
      ensures r.Ok? ==> |r.value| == |objects| + |entries| && r.value[..|objects|] == objects && Reported(r.value, |objects|, entries, kind)
    {
      var objectsToReport := objects;
      for i := 0 to |entries|
        invariant |objectsToReport| == |objects| + i && objectsToReport[..|objects|] == objects
        invariant Reported(objectsToReport, |objects|, entries[..i], kind)
      {
        var blobObject := MakeGroupObject(entries[i], kind, sizeText);
        if blobObject.Err? {
          return Err(blobObject.error);
        }
        ghost var before := objectsToReport;
        objectsToReport := objectsToReport + [blobObject.value];
        assert objectsToReport[..|before|] == before;
        assert entries[..i + 1] == entries[..i] + [entries[i]];
      }
      assert entries[..|entries|] == entries;
      r := Ok(objectsToReport);
    }

    /// GroupDuplicatesByHash: one object per blob with unprocessed
    /// duplicates, then one per partially isolated blob, in the maps' order;
    /// the first blob its validator rejects throws.
    method GroupDuplicatesByHash(sizeText: int64 -> string) returns (r: Result<seq<HierarchicalObject>>)
      ensures r.Err? ==> r.error == GeneralException
      ensures r.Ok? <==>
        (forall i :: 0 <= i < |unprocessedDuplicatesByHash| ==> SortOf(Unprocessed, unprocessedDuplicatesByHash[i]).Ok?) &&
        (forall i :: 0 <= i < |partiallyIsolatedDuplicates| ==> SortOf(PartiallyIsolated, partiallyIsolatedDuplicates[i]).Ok?)
      ensures r.Ok? ==>
        |r.value| == |unprocessedDuplicatesByHash| + |partiallyIsolatedDuplicates| &&
        Reported(r.value, 0, unprocessedDuplicatesByHash, Unprocessed) &&
        Reported(r.value, |unprocessedDuplicatesByHash|, partiallyIsolatedDuplicates, PartiallyIsolated)
    {
      r := ReportBlobs([], unprocessedDuplicatesByHash, Unprocessed, sizeText);
      if r.Ok? {
        ghost var first := r.value;
        r := ReportBlobs(r.value, partiallyIsolatedDuplicates, PartiallyIsolated, sizeText);
        if r.Ok? {
          assert r.value[..|first|] == first;
          assert forall j :: 0 <= j < |first| ==> r.value[j] == first[j];
        }
      }
    }

    /// GetUniqueIsolatedFiles: one object per blob present only in
    /// isolation, in the map's order; the first blob with a file in its
    /// original location, or without isolated files, throws.
    method GetUniqueIsolatedFiles(sizeText: int64 -> string) returns (r: Result<seq<HierarchicalObject>>)
      ensures r.Err? ==> r.error == GeneralException
      ensures r.Ok? <==> forall i :: 0 <= i < |uniqueIsolatedFiles| ==> SortOf(UniqueIsolated, uniqueIsolatedFiles[i]).Ok?
      ensures r.Ok? ==> |r.value| == |uniqueIsolatedFiles| && Reported(r.value, 0, uniqueIsolatedFiles, UniqueIsolated)
    {
      r := ReportBlobs([], uniqueIsolatedFiles, UniqueIsolated, sizeText);
    }

    /// MakeFileObject: a file's object, named after the file and the path of
    /// its directory, without children.
    static method MakeFileObject(file: FileEntity, fileSort: bv32) returns (fileObject: HierarchicalObject)
      ensures fresh(fileObject) && fileObject.obj == FileObject(file) && fileObject.objectType == FileType
      ensures fileObject.sort == fileSort && fileObject.children.None?
      ensures fileObject.name == file.name + " | " + PathOf(file.parent.value)
    {
      var fileRepresentation := file.name + " | " + PathOf(file.parent.value);
      fileObject := HierarchicalObject.Create(FileObject(file), fileSort, None, Some(fileRepresentation), "");
    }

    /// MakeFileObjects: one object per file, in an array of the files'
    /// length, each sorted as a file specimen, unique when it is the only
    /// file, and isolated or in its original location; the two counters sum
    /// to the number of files.
    method MakeFileObjects(files: seq<FileEntity>) returns (objects: array<HierarchicalObject?>, unprocessedDuplicatesCount: nat, isolatedDuplicatesCount: nat)
      ensures fresh(objects) && objects.Length == |files|
      ensures isolatedDuplicatesCount == IsolatedCount(files, directoriesForIsolatedDuplicates)
      ensures unprocessedDuplicatesCount + isolatedDuplicatesCount == |files|
      ensures forall i :: 0 <= i < |files| ==>
        objects[i] != null && fresh(objects[i]) && IsFileObject(objects[i], files[i], |files| == 1, directoriesForIsolatedDuplicates)
    {
      unprocessedDuplicatesCount, isolatedDuplicatesCount := 0, 0;
      var isFileUnique := |files| == 1;
      objects := new HierarchicalObject?[|files|];
      for index := 0 to |files|
        invariant isolatedDuplicatesCount == IsolatedCount(files[..index], directoriesForIsolatedDuplicates)
        invariant unprocessedDuplicatesCount + isolatedDuplicatesCount == index
        invariant forall i :: 0 <= i < index ==>
          objects[i] != null && fresh(objects[i]) && IsFileObject(objects[i], files[i], isFileUnique, directoriesForIsolatedDuplicates)
      {
        var file := files[index];
        assert files[..index + 1][..index] == files[..index];
        var fileSort := if isFileUnique then OS.FileSpecimen | OS.IsUnique else OS.FileSpecimen;
        if IsDirectoryInIsolatedDuplicates(file.parent.value, directoriesForIsolatedDuplicates) {
          fileSort := fileSort | OS.IsolatedDuplicate;
          isolatedDuplicatesCount := isolatedDuplicatesCount + 1;
        } else {
          fileSort := fileSort | OS.InOriginalLocation;
          unprocessedDuplicatesCount := unprocessedDuplicatesCount + 1;
        }
        var fileObject := MakeFileObject(file, fileSort);
        objects[index] := fileObject;
      }
      assert files[..|files|] == files;
    }
  }
}
