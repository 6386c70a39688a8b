/// The [Flags] enumeration BlobPeculiarities: what the analysis of one group of
/// same-content files found.
module BlobPeculiarities {

  const None: bv32 := 0
  const IsUnique: bv32 := 4
  const HasNoOriginalLocatedFiles: bv32 := 16
  const HasOriginalLocatedFiles: bv32 := 32
  const HasUnprocessedDuplicates: bv32 := 64
  const HasIsolatedDuplicates: bv32 := 128

  const AllDuplicatesIsolated: bv32 := HasOriginalLocatedFiles | HasIsolatedDuplicates
  const ContainsIsolatedFilesOnly: bv32 := HasNoOriginalLocatedFiles | HasIsolatedDuplicates
  const HasPartiallyIsolatedDuplicates: bv32 := HasOriginalLocatedFiles | HasUnprocessedDuplicates | HasIsolatedDuplicates

  /// Enum.HasFlag: every bit of the flag is set in the value.
  predicate HasFlag(value: bv32, flag: bv32) {
    value & flag == flag
  }

  /// A value with exactly one bit set.
  predicate SingleBit(f: bv32) {
    f != 0 && f & (f - 1) == 0
  }

  /// The five basic members are single, pairwise different bits.
  lemma BasicMembersAreDistinctBits()
    ensures None == 0
    ensures SingleBit(IsUnique) && SingleBit(HasNoOriginalLocatedFiles) && SingleBit(HasOriginalLocatedFiles)
    ensures SingleBit(HasUnprocessedDuplicates) && SingleBit(HasIsolatedDuplicates)
    ensures IsUnique & HasNoOriginalLocatedFiles == 0 && IsUnique & HasOriginalLocatedFiles == 0
    ensures IsUnique & HasUnprocessedDuplicates == 0 && IsUnique & HasIsolatedDuplicates == 0
    ensures HasNoOriginalLocatedFiles & HasOriginalLocatedFiles == 0
    ensures HasNoOriginalLocatedFiles & HasUnprocessedDuplicates == 0
    ensures HasNoOriginalLocatedFiles & HasIsolatedDuplicates == 0
    ensures HasOriginalLocatedFiles & HasUnprocessedDuplicates == 0
    ensures HasOriginalLocatedFiles & HasIsolatedDuplicates == 0
    ensures HasUnprocessedDuplicates & HasIsolatedDuplicates == 0
  {
  }

  /// The composites: a value has a composite flag exactly when it has each of
  /// the composite's members, and the partially-isolated composite extends the
  /// all-isolated one by the unprocessed bit alone.
  lemma CompositeMembers(v: bv32)
    ensures HasFlag(v, AllDuplicatesIsolated) <==> HasFlag(v, HasOriginalLocatedFiles) && HasFlag(v, HasIsolatedDuplicates)
    ensures HasFlag(v, ContainsIsolatedFilesOnly) <==> HasFlag(v, HasNoOriginalLocatedFiles) && HasFlag(v, HasIsolatedDuplicates)
    ensures HasFlag(v, HasPartiallyIsolatedDuplicates) <==> HasFlag(v, AllDuplicatesIsolated) && HasFlag(v, HasUnprocessedDuplicates)
    ensures HasPartiallyIsolatedDuplicates == AllDuplicatesIsolated | HasUnprocessedDuplicates
    ensures HasFlag(HasPartiallyIsolatedDuplicates, AllDuplicatesIsolated)
  {
  }
}

/// The [Flags] enumeration ObjectSort: what a node of the duplicates report
/// stands for and what was found under it.
module ObjectSorts {

  const None: bv32 := 0
  const Blob: bv32 := 1
  const FileSpecimen: bv32 := 2
  const IsUnique: bv32 := 4
  const InOriginalLocation: bv32 := 8
  const IsolatedDuplicate: bv32 := 16
  const HasOriginalFiles: bv32 := 32
  const HasUnprocessedDuplicates: bv32 := 64
  const HasIsolatedDuplicates: bv32 := 128

  const AllDuplicatesIsolated: bv32 := Blob | HasOriginalFiles | HasIsolatedDuplicates
  const ContainsUniqueIsolatedFiles: bv32 := Blob | HasIsolatedDuplicates

  /// Enum.HasFlag.
  predicate HasFlag(value: bv32, flag: bv32) {
    value & flag == flag
  }

  /// The eight basic members, in declaration order.
  const BasicMembers: seq<bv32> := [Blob, FileSpecimen, IsUnique, InOriginalLocation, IsolatedDuplicate,
                                    HasOriginalFiles, HasUnprocessedDuplicates, HasIsolatedDuplicates]

  /// The eight basic members are single bits, pairwise disjoint.
  lemma BasicMembersAreDistinctBits()
    ensures None == 0 && |BasicMembers| == 8
    ensures forall i :: 0 <= i < |BasicMembers| ==> BasicMembers[i] != 0 && BasicMembers[i] & (BasicMembers[i] - 1) == 0
    ensures forall i, j :: 0 <= i < j < |BasicMembers| ==> BasicMembers[i] & BasicMembers[j] == 0
  {
  }

  /// The all-isolated composite leaves the unprocessed bit clear, and every
  /// bit of the unique-isolated composite is also in it.
  lemma CompositeMembers(v: bv32)
    ensures !HasFlag(AllDuplicatesIsolated, HasUnprocessedDuplicates)
    ensures HasFlag(AllDuplicatesIsolated, ContainsUniqueIsolatedFiles)
    ensures HasFlag(v, AllDuplicatesIsolated) ==> HasFlag(v, ContainsUniqueIsolatedFiles)
    ensures HasFlag(v, ContainsUniqueIsolatedFiles) <==> HasFlag(v, Blob) && HasFlag(v, HasIsolatedDuplicates)
  {
  }
}
