/// The report-scoped view of duplicates: one FileInfo per file found, grouped
/// into SameContentFilesInfo objects that share one blob, and the per-folder
/// DirectoryWithDuplicates projection.
module Duplicates {
  import opened DotNet
  import opened BlobInfos
  import opened FsEntities
  import opened DataLocations
  import BP = BlobPeculiarities

  /// DuplicateSort. The enumeration is declared outside the modelled sources;
  /// its two named members are taken to be distinct non-zero flags, so that
  /// HasFlag on them is equality, and Unsorted is the zero value a new
  /// FileInfo starts with.
  datatype DuplicateSort = Unsorted | InOriginalLocation | IsolatedDuplicate

  class FileInfo {
    const blob: BlobInfo
    const file: FileEntity
    const dataLocation: DataLocation
    var group: SameContentFilesInfo?
    var sort: DuplicateSort

    /// The attached group, if any, carries this file's own blob.
    ghost predicate Valid()
      reads this
    {
      group != null ==> group.blob == blob
    }

    constructor (blob: BlobInfo, file: FileEntity, dataLocation: DataLocation)
      ensures this.blob == blob && this.file == file && this.dataLocation == dataLocation
      ensures group == null && sort == Unsorted && Valid()
    {
      this.blob := blob;
      this.file := file;
      this.dataLocation := dataLocation;
      group := null;
      sort := Unsorted;
    }

    /// The BlobInfo getter: the group's blob once a group is attached, the
    /// construction blob before. Either way it is the construction blob.
    function CurrentBlob(): (b: BlobInfo)
      reads this
      ensures group != null ==> b == group.blob
      ensures Valid() ==> b == blob
    {
      if group != null then group.blob else blob
    }

    /// FileInfo.SetSameContentFiles: attaches a group carrying an equal blob,
    /// and throws ArgumentException, attaching nothing, for any other group.
    method SetSameContentFiles(sameContentFiles: SameContentFilesInfo) returns (outcome: Outcome)
      modifies this
      ensures outcome == Pass <==> sameContentFiles.blob == blob
      ensures outcome.Pass? ==> group == sameContentFiles
      ensures outcome.Fail? ==> outcome.error == ArgumentException && group == old(group)
      ensures sort == old(sort)
      ensures old(Valid()) ==> Valid()
    {
      var equal := BlobInfos.Equals(blob, Instance(sameContentFiles.blob));
      if !equal {
        return Fail(ArgumentException);
      }
      group := sameContentFiles;
      outcome := Pass;
    }

    /// FileInfo.SetDuplicateSort: changes the sort and nothing else.
    method SetDuplicateSort(sort: DuplicateSort)
      modifies this
      ensures this.sort == sort && group == old(group)
    {
      this.sort := sort;
    }

    /// FileInfo.IsBlobTotallyIsolated: whether the attached group's
    /// peculiarities contain ContainsIsolatedFilesOnly, reading (and so
    /// possibly filling) the group's cache. With no group attached the getter
    /// dereferences null.
    method IsBlobTotallyIsolated() returns (r: Result<bool>)
      modifies group
      ensures group == old(group)
      ensures group == null ==> r == Err(NullReferenceException)
      ensures group != null ==> group.peculiarities == Filled(old(group.peculiarities), group.duplicates)
      ensures group != null ==> r == Ok(BP.HasFlag(group.peculiarities, BP.ContainsIsolatedFilesOnly))
    {
      if group == null {
        return Err(NullReferenceException);
      }
      var p := group.Peculiarities();
      r := Ok(BP.HasFlag(p, BP.ContainsIsolatedFilesOnly));
    }
  }

  /// The sorts of a sequence of FileInfos, in order.
  function Sorts(files: seq<FileInfo>): (s: seq<DuplicateSort>)
    reads set f | f in files
    ensures |s| == |files|
    ensures forall i :: 0 <= i < |files| ==> s[i] == files[i].sort
  {
    if files == [] then [] else Sorts(files[..|files| - 1]) + [files[|files| - 1].sort]
  }

  /// How many of the sorts are the given one.
  function Count(sorts: seq<DuplicateSort>, sort: DuplicateSort): nat {
    multiset(sorts)[sort]
  }

  /// The counting loop of SameContentFilesInfo.AnalyzeDuplicates: the
  /// members in their original location, and the isolated ones.
  method CountSorts(duplicates: seq<FileInfo>) returns (originals: nat, isolated: nat)
    ensures originals == Count(Sorts(duplicates), InOriginalLocation)
    ensures isolated == Count(Sorts(duplicates), IsolatedDuplicate)
  {
    ghost var sorts := Sorts(duplicates);
    originals, isolated := 0, 0;
    for i := 0 to |duplicates|
      invariant originals == Count(sorts[..i], InOriginalLocation)
      invariant isolated == Count(sorts[..i], IsolatedDuplicate)
    {
      assert sorts[..i + 1] == sorts[..i] + [duplicates[i].sort];
      if duplicates[i].sort == InOriginalLocation {
        originals := originals + 1;
      }
      if duplicates[i].sort == IsolatedDuplicate {
        isolated := isolated + 1;
      }
    }
    assert sorts[..|duplicates|] == sorts;
  }

  /// The peculiarities of a group with the given numbers of files in their
  /// original location and of isolated files.
  function Analysis(originals: nat, isolated: nat): bv32 {
    var located := if originals > 0 then BP.HasOriginalLocatedFiles else BP.HasNoOriginalLocatedFiles;
    var withIsolated := if isolated > 0 then located | BP.HasIsolatedDuplicates else located;
    var withUnprocessed := if originals > 1 then withIsolated | BP.HasUnprocessedDuplicates else withIsolated;
    if originals + isolated == 1 then withUnprocessed | BP.IsUnique else withUnprocessed
  }

  /// The peculiarities the analysis finds for a sequence of sorts.
  function PeculiaritiesOf(sorts: seq<DuplicateSort>): bv32 {
    Analysis(Count(sorts, InOriginalLocation), Count(sorts, IsolatedDuplicate))
  }

  /// The cache after the Peculiarities getter: filled from the members' sorts
  /// when it still holds None, kept as it is otherwise.
  function Filled(cache: bv32, files: seq<FileInfo>): bv32
    reads set f | f in files
  {
    if cache == BP.None then PeculiaritiesOf(Sorts(files)) else cache
  }

  /// Each flag of the analysis says one thing about the counts. Exactly one
  /// of the two location flags is set, and the result is never None.
  lemma AnalysisFlags(originals: nat, isolated: nat)
    ensures BP.HasFlag(Analysis(originals, isolated), BP.HasOriginalLocatedFiles) <==> originals > 0
    ensures BP.HasFlag(Analysis(originals, isolated), BP.HasNoOriginalLocatedFiles) <==> originals == 0
    ensures BP.HasFlag(Analysis(originals, isolated), BP.HasIsolatedDuplicates) <==> isolated > 0
    ensures BP.HasFlag(Analysis(originals, isolated), BP.HasUnprocessedDuplicates) <==> originals > 1
    ensures BP.HasFlag(Analysis(originals, isolated), BP.IsUnique) <==> originals + isolated == 1
    ensures Analysis(originals, isolated) != BP.None
  {
  }

  /// SameContentFilesInfo.AllDuplicatesIsolated on a peculiarity value.
  predicate AllDuplicatesIsolatedIn(p: bv32) {
    BP.HasFlag(p, BP.AllDuplicatesIsolated) && !BP.HasFlag(p, BP.HasUnprocessedDuplicates)
  }

  /// SameContentFilesInfo.ContainsIsolatedFilesOnly on a peculiarity value.
  predicate ContainsIsolatedFilesOnlyIn(p: bv32) {
    BP.HasFlag(p, BP.ContainsIsolatedFilesOnly)
  }

  /// The two categories in terms of the counts: all duplicates isolated means
  /// one original and some isolated copies; isolated files only means no
  /// original and some isolated copies. No group is in both.
  lemma {:induction false} Categories(originals: nat, isolated: nat)
    ensures AllDuplicatesIsolatedIn(Analysis(originals, isolated)) <==> originals == 1 && isolated > 0
    ensures ContainsIsolatedFilesOnlyIn(Analysis(originals, isolated)) <==> originals == 0 && isolated > 0
    ensures !(AllDuplicatesIsolatedIn(Analysis(originals, isolated)) && ContainsIsolatedFilesOnlyIn(Analysis(originals, isolated)))
  {
    AnalysisFlags(originals, isolated);
    BP.CompositeMembers(Analysis(originals, isolated));
  }

  /// The index of the first file whose own blob differs from the given one,
  /// or the length when there is none.
  function FirstMismatch(blob: BlobInfo, files: seq<FileInfo>): (k: nat)
    ensures k <= |files|
    ensures forall i :: 0 <= i < k ==> files[i].blob == blob
    ensures k < |files| ==> files[k].blob != blob
  {
    if files == [] || files[0].blob != blob then 0 else 1 + FirstMismatch(blob, files[1..])
  }

  /// The number of original-location files a group's data size counts.
  function Max0(n: int): nat {
    if n > 0 then n else 0
  }

  class SameContentFilesInfo {
    const blob: BlobInfo
    const duplicates: seq<FileInfo>
    var peculiarities: bv32

    /// The field initialisation of the constructor, before it attaches the members.
    constructor Init(blob: BlobInfo, duplicates: seq<FileInfo>)
      ensures this.blob == blob && this.duplicates == duplicates && peculiarities == BP.None
    {
      this.blob := blob;
      this.duplicates := duplicates;
      peculiarities := BP.None;
    }

    /// The constructor: attaches the new group to every member in turn, and
    /// throws at the first member whose blob differs, leaving the members
    /// before it attached to the group and the rest untouched.
    static method New(blob: BlobInfo, duplicates: seq<FileInfo>) returns (info: SameContentFilesInfo, outcome: Outcome)
      modifies set f | f in duplicates
      ensures fresh(info) && info.blob == blob && info.duplicates == duplicates && info.peculiarities == BP.None
      ensures outcome == Pass <==> FirstMismatch(blob, duplicates) == |duplicates|
      ensures outcome.Fail? ==> outcome.error == ArgumentException
      ensures forall i :: 0 <= i < FirstMismatch(blob, duplicates) ==> duplicates[i].group == info
      ensures forall f :: f in duplicates && f !in duplicates[..FirstMismatch(blob, duplicates)] ==> f.group == old(f.group)
      ensures forall f :: f in duplicates ==> f.sort == old(f.sort)
      ensures forall f :: f in duplicates && old(f.Valid()) ==> f.Valid()
    {
      info := new SameContentFilesInfo.Init(blob, duplicates);
      var k := FirstMismatch(blob, duplicates);
      var i := 0;
      while i < |duplicates|
        invariant 0 <= i <= k
        invariant info.blob == blob && info.duplicates == duplicates && info.peculiarities == BP.None
        invariant forall j :: 0 <= j < i ==> duplicates[j].group == info
        invariant forall f :: f in duplicates && f !in duplicates[..i] ==> f.group == old(f.group)
        invariant forall f :: f in duplicates ==> f.sort == old(f.sort)
        invariant forall f :: f in duplicates && old(f.Valid()) ==> f.Valid()
      {
        var member := duplicates[i];
        var attached := member.SetSameContentFiles(info);
        if attached.Fail? {
          assert i == k;
          return info, attached;
        }
        assert duplicates[..i + 1] == duplicates[..i] + [member];
        i := i + 1;
      }
      outcome := Pass;
    }

    /// SameContentFilesInfo.AnalyzeDuplicates: counts the members in their
    /// original location and the isolated ones, and derives the flags.
    static method AnalyzeDuplicates(duplicates: seq<FileInfo>) returns (p: bv32)
      ensures p == PeculiaritiesOf(Sorts(duplicates))
    {
      var filesOnOriginalLocations, isolatedDuplicatesCount := CountSorts(duplicates);
      p := if filesOnOriginalLocations > 0 then BP.HasOriginalLocatedFiles else BP.HasNoOriginalLocatedFiles;
      if isolatedDuplicatesCount > 0 {
        p := p | BP.HasIsolatedDuplicates;
      }
      if filesOnOriginalLocations > 1 {
        p := p | BP.HasUnprocessedDuplicates;
      }
      if filesOnOriginalLocations + isolatedDuplicatesCount == 1 {
        p := p | BP.IsUnique;
      }
    }

    /// The Peculiarities getter: analyses the members on the first read and
    /// caches the result. The analysis is never None, so the cache is never
    /// refilled and later changes of the members' sorts are not seen.
    method Peculiarities() returns (p: bv32)
      modifies this
      ensures peculiarities == Filled(old(peculiarities), duplicates) && p == peculiarities
      ensures p != BP.None
    {
      if peculiarities == BP.None {
        peculiarities := AnalyzeDuplicates(duplicates);
        AnalysisFlags(Count(Sorts(duplicates), InOriginalLocation), Count(Sorts(duplicates), IsolatedDuplicate));
      }
      p := peculiarities;
    }

    /// The AllDuplicatesIsolated getter.
    method AllDuplicatesIsolated() returns (r: bool)
      modifies this
      ensures peculiarities == Filled(old(peculiarities), duplicates)
      ensures r <==> AllDuplicatesIsolatedIn(peculiarities)
    {
      var p := Peculiarities();
      r := BP.HasFlag(p, BP.AllDuplicatesIsolated) && !BP.HasFlag(p, BP.HasUnprocessedDuplicates);
    }

    /// The ContainsIsolatedFilesOnly getter.
    method ContainsIsolatedFilesOnly() returns (r: bool)
      modifies this
      ensures peculiarities == Filled(old(peculiarities), duplicates)
      ensures r <==> ContainsIsolatedFilesOnlyIn(peculiarities)
    {
      var p := Peculiarities();
      r := BP.HasFlag(p, BP.ContainsIsolatedFilesOnly);
    }

    /// AllDataSize: the space all members take.
    function AllDataSize(): int {
      blob.size * |duplicates|
    }

    /// AllDuplicatesDataSize: the space all members but one take.
    function AllDuplicatesDataSize(): int {
      blob.size * Max0(|duplicates| - 1)
    }

    /// DuplicatesDataSize: the space taken by all original-location members
    /// but one, counted in a loop over the members.
    method DuplicatesDataSize() returns (r: int)
      ensures r == blob.size * Max0(Count(Sorts(duplicates), InOriginalLocation) - 1)
    {
      ghost var sorts := Sorts(duplicates);
      var originalLocatedFilesCount := 0;
      for i := 0 to |duplicates|
        invariant originalLocatedFilesCount == Count(sorts[..i], InOriginalLocation)
      {
        assert sorts[..i + 1] == sorts[..i] + [duplicates[i].sort];
        if duplicates[i].sort == InOriginalLocation {
          originalLocatedFilesCount := originalLocatedFilesCount + 1;
        }
      }
      assert sorts[..|duplicates|] == sorts;
      r := blob.size * if originalLocatedFilesCount - 1 > 0 then originalLocatedFilesCount - 1 else 0;
    }

    /// SameContentFilesInfo.Equals(object): equal exactly when the other object
    /// is a group with an equal blob, whatever the members.
    method Equals(obj: Operand<SameContentFilesInfo>) returns (r: bool)
      ensures r <==> obj.Instance? && obj.value.blob == blob
    {
      if !obj.Instance? {
        return false;
      }
      r := BlobInfos.Equals(blob, Instance(obj.value.blob));
    }

    /// SameContentFilesInfo.GetHashCode: the blob's hash code, so groups that
    /// are Equals-equal hash equally.
    method GetHashCode() returns (h: bv32)
      ensures h == BlobInfos.HashCode(blob)
    {
      h := BlobInfos.GetHashCode(blob);
    }
  }

  /// The size metrics of a group: all members but one take the whole space
  /// less one copy, and the duplicates left in their original location never
  /// take more than all duplicates.
  lemma SizeMetrics(info: SameContentFilesInfo, sorts: seq<DuplicateSort>)
    requires |sorts| == |info.duplicates|
    ensures |info.duplicates| > 0 ==> info.AllDuplicatesDataSize() + info.blob.size == info.AllDataSize()
    ensures info.blob.size >= 0 ==>
      info.blob.size * Max0(Count(sorts, InOriginalLocation) - 1) <= info.AllDuplicatesDataSize()
  {
    var originals := Count(sorts, InOriginalLocation);
    assert originals <= |multiset(sorts)| == |sorts|;
    if info.blob.size >= 0 {
      assert Max0(originals - 1) <= Max0(|info.duplicates| - 1);
      MultiplyMonotone(info.blob.size, Max0(originals - 1), Max0(|info.duplicates| - 1));
    }
  }

  lemma MultiplyMonotone(a: nat, x: nat, y: nat)
    requires x <= y
    ensures a * x <= a * y
  {
  }

  /// DirectoryWithDuplicates: a directory, the set of its subdirectory views
  /// and the set of duplicates found in it, all fixed at construction.
  class DirectoryWithDuplicates {
    const directory: FsEntity
    const subDirectories: set<DirectoryWithDuplicates>
    const duplicatesInTheDirectory: set<FileInfo>

    /// The constructor: the given sequences become sets, and a null sequence
    /// of duplicates becomes the empty set.
    constructor (directory: FsEntity, subDirectoriesWithDuplicates: seq<DirectoryWithDuplicates>,
                 duplicatesFound: Option<seq<FileInfo>>)
      ensures this.directory == directory
      ensures forall d :: d in subDirectories <==> d in subDirectoriesWithDuplicates
      ensures duplicatesFound.None? ==> duplicatesInTheDirectory == {}
      ensures duplicatesFound.Some? ==> forall f :: f in duplicatesInTheDirectory <==> f in duplicatesFound.value
    {
      this.directory := directory;
      subDirectories := set d | d in subDirectoriesWithDuplicates;
      duplicatesInTheDirectory := if duplicatesFound.Some? then set f | f in duplicatesFound.value else {};
    }
  }
}
