# OrdinaryDumpDeduplicator in Dafny

A model of the duplicate-detection engine of OrdinaryDumpDeduplicator, a tool that
scans folders ("data locations"), records every file's size and SHA-1 digest per scan
("inspection"), and finds files with the same content. It can move duplicates into an
"isolated duplicates" folder next to the originals, and delete files from that folder.

The model follows the C# source file by file:

| file | module | models |
|---|---|---|
| flags.dfy | BlobPeculiarities, ObjectSorts | the two `[Flags]` enums, as bit-vector constants with their composites |
| blob_info.dfy | BlobInfos | content identity: size plus 20-byte digest, the Empty and Broken sentinels, `Create`, `Equals`, `GetHashCode`, `HexString`; the lazily created sentinels and the hex cache as small classes |
| fs_entity.dfy | FsEntities | files and directories as names with a parent chain; `Equals` as written (including the NullReferenceException it can throw), its hash code, and the cached `Path` as the class `FsEntityNode` |
| file.dfy, file_state.dfy, inspection.dfy, data_location.dfy | Files, FileStates, Inspections, DataLocations | the scan-history records; classes where the source updates fields in place |
| hierarchy.dfy | Hierarchy | `HierarchicalObject`, the tree node the reports build |
| duplicates.dfy | Duplicates | `FileInfo`, `SameContentFilesInfo` (peculiarity analysis, categories, size metrics, equality) and `DirectoryWithDuplicates` |
| grouping.dfy | Grouping | the grouping loops the index and the processor write by hand (a `Dictionary` of `List` or of `HashSet` filled key by key) and LINQ `Distinct`, as functions with their lemmas |
| data_controller.dfy | DataController | `DataControllerSimple`, the in-memory index: its six collections, the `Add*` methods and the queries |
| processor.dfy | Processing | `DuplicatesProcessor.GetDuplicatesFound` and its helpers: tagging, grouping by blob, the union of the two groupings |
| processor_actions.dfy, processor_move.dfy | ProcessorActions, ProcessorMove | `DeleteDuplicates` and `MoveDuplicatesToSpecialFolder`, with per-file partial failure |
| report.dfy | Reports | `DuplicateReport`: grouping by folder with ancestor closure, grouping by hash, the three validators, `MakeFileObjects` |
| deduplicator.dfy | Deduplicator | `OrdinaryDumpDeduplicator`: an inspection from scan to hashing |
| dotnet.dfy | DotNet | the .NET notions the rest uses: exceptions as a datatype, `Result`, `Option`, the operand of an `Equals` (null, another type, an instance), and the Int32, Int64 and UInt64 ranges |

Exceptions are values: a member that can throw returns `Result`, whose `Err` names the
exception type. Collections the source mutates are `seq`, `set` or `map` fields of the
class that owns them; a `HashSet` or `Dictionary` that is enumerated is a `seq` in
insertion order. The file system, the SHA-1 computation, the clock and the directory
scanner are parameters (datatypes of functions), so every claim holds for any answer
they give.

## Model

| member | source | states |
|---|---|---|
| BlobPeculiarities.BasicMembersAreDistinctBits | OrdinaryDumpDeduplicator/BlobPeculiarities.cs:8-13 | None is 0 and the five basic flags are single bits, no two of them sharing a bit |
| BlobPeculiarities.CompositeMembers | OrdinaryDumpDeduplicator/BlobPeculiarities.cs:15-17 | a value has AllDuplicatesIsolated (ContainsIsolatedFilesOnly) exactly when it has both member flags; HasPartiallyIsolatedDuplicates is AllDuplicatesIsolated plus HasUnprocessedDuplicates and nothing else |
| ObjectSorts.BasicMembersAreDistinctBits | OrdinaryDumpDeduplicator/ObjectSort.cs:8-18 | None is 0 and the eight basic sorts are single bits, pairwise disjoint |
| ObjectSorts.CompositeMembers | OrdinaryDumpDeduplicator/ObjectSort.cs:20-21 | AllDuplicatesIsolated does not contain HasUnprocessedDuplicates; every bit of ContainsUniqueIsolatedFiles is in AllDuplicatesIsolated; ContainsUniqueIsolatedFiles is exactly Blob and HasIsolatedDuplicates |
| DataLocations.DataLocation.FromDirectory | Common/DataLocation.cs:19-23 | stores the root directory and that directory's path as read at construction, which also fills the directory's path cache |
| DataLocations.DataLocation.FromPath | Common/DataLocation.cs:25-28 | stores the path and no root directory |
| Inspections.Inspection.constructor | Common/Inspection.cs:13-17 | stores the location and start time; the optional end is ignored, so the inspection is unfinished |
| Inspections.Inspection.FinishInspection | Common/Inspection.cs:25-28 | sets the finish time to the given one, also on a second call |
| Files.File.WithoutSize | Common/File.cs:10-13 | a file built without a size has size 0 and no digest |
| Files.File.constructor | Common/File.cs:15-19 | stores the given size; no digest |
| Files.File.SetHashValue | Common/File.cs:27-37 | the first assignment stores the digest; any later one throws InvalidOperationException and leaves the digest as it was |
| FileStates.FileState.constructor | Common/FileState.cs:18-28 | stores all eight arguments unchanged |
| FileStates.FileState.WithoutBlob | Common/FileState.cs:30-34 | stores the seven arguments and leaves the blob null |
| FileStates.FileState.SetStatusAndBlobInfo | Common/FileState.cs:52-56 | replaces status and blob; the previous-state link is kept and the other fields are constant |
| FileStates.FileState.SetPreviousFileState | Common/FileState.cs:58-61 | replaces the previous-state link only; status and blob are kept |
| BlobInfos.NewBlobInfo | Common/BlobInfo.cs:20-40 | accepted exactly when size is at least 1 and a 20-byte digest is given, and then holds them and is no sentinel; size below 1 throws ArgumentException, a null digest ArgumentNullException, a digest of another length ArgumentException, checked in that order |
| BlobInfos.SentinelBlobInfo | Common/BlobInfo.cs:44-60 | size 0 gives the empty sentinel, size -1 the broken one, any other size throws ArgumentException |
| BlobInfos.Create | Common/BlobInfo.cs:62-80 | never throws for size at most 0; the result is a sentinel exactly when the size is at most 0, with size -1 for every negative size, and the digest is ignored there; a positive size goes to the public constructor |
| BlobInfos.SentinelsAreNotContent | Common/BlobInfo.cs:20-60 | a blob the public constructor accepts is neither sentinel |
| BlobInfos.BlobInfoStatics.constructor | Common/BlobInfo.cs:10-11 | both static sentinels start uncreated |
| BlobInfos.BlobInfoStatics.EmptyBlobInfo | Common/BlobInfo.cs:86-97 | returns the empty sentinel and caches it, so every later read returns the same value; the broken cache is untouched |
| BlobInfos.BlobInfoStatics.BrokenBlobInfo | Common/BlobInfo.cs:99-110 | returns the broken sentinel and caches it; the empty cache is untouched |
| BlobInfos.BlobInfoStatics.CreateBlobInfo | Common/BlobInfo.cs:62-80 | Create as written, through the lazily created sentinels, gives exactly the value of the Create function |
| BlobInfos.Equals | Common/BlobInfo.cs:132-164 | the byte-by-byte comparison returns true exactly when the argument is a blob with the same size and digest; null and objects of another type give false |
| BlobInfos.Unsigned64 | Common/BlobInfo.cs:173 | the 64-bit pattern of an Int64 whose size hash is taken: below 2^64 and congruent to the value |
| BlobInfos.ShiftInByte | Common/BlobInfo.cs:180 | on an Int32 that wraps around, hashPart * 256 + byte shifts the byte in from the right |
| BlobInfos.ReadWord | Common/BlobInfo.cs:176-181 | the inner loop reads the i-th four digest bytes as one big-endian word |
| BlobInfos.XorWords | Common/BlobInfo.cs:173-186 | the outer loop gives the size hash exclusive-or the five big-endian words |
| BlobInfos.GetHashCode | Common/BlobInfo.cs:166-187 | the hash code is the closed-form HashCode of the blob's value, so blobs that Equals relates hash equally |
| BlobInfos.RemoveDashesAppend | Common/BlobInfo.cs:121 | removing dashes distributes over concatenation |
| BlobInfos.DigestHexIsPairs | Common/BlobInfo.cs:120-121 | BitConverter's dashed text with the dashes removed is the bytes' digit pairs with no separator |
| BlobInfos.ParsePairs | Common/BlobInfo.cs:120-121 | the digit pairs of any byte sequence are twice as long, all upper-case hex digits, and read back to the bytes |
| BlobInfos.HexStringRoundTrip | Common/BlobInfo.cs:114-126 | HexString of a digest is forty upper-case hex digits with no separator, from which the digest reads back |
| BlobInfos.ToString | Common/BlobInfo.cs:189-194 | the size text, " \| ", then the HexString: its last forty characters are hex digits that read back to the digest |
| BlobInfos.HexStringCache.constructor | Common/BlobInfo.cs:16-39 | a new blob has no cached hex string |
| BlobInfos.HexStringCache.HexString | Common/BlobInfo.cs:114-126 | returns the digest's hex text and caches it; a cached value is always that text |
| FsEntities.NewFsEntity | Common/FsEntity.cs:19-28 | accepted exactly when the name is not null, empty or white space, and then holds the name and parent; otherwise ArgumentException |
| FsEntities.ToString | Common/FsEntity.cs:85-88 | the name alone, which is never blank for an entity the constructor accepted |
| FsEntities.AncestorIsShallower | Common/FsEntity.cs:11-36 | an ancestor through parent links has fewer ancestors, so the parent chain ends |
| FsEntities.AncestorTransitive | Common/FsEntity.cs:11-36 | an ancestor of an ancestor-or-self is an ancestor |
| FsEntities.EqualsIsStructural | Common/FsEntity.cs:57-74 | when Equals returns, it answers true exactly for structurally equal entities: same name and equal parents up the chain; the subtype is not compared |
| FsEntities.EqualsThrowsIff | Common/FsEntity.cs:70-72 | Equals throws, with NullReferenceException, exactly when the names agree up to the receiver's root and the other entity's chain goes on above it |
| FsEntities.EqualsTotalWhenNotShallower | Common/FsEntity.cs:57-74 | Equals never throws when the receiver is at least as deep as the argument, and then returns structural equality |
| FsEntities.EqualsThrowsOnRootAgainstNested | Common/FsEntity.cs:70-72 | a root compared with a same-named entity one level down throws NullReferenceException, while the comparison the other way round returns false |
| FsEntities.StructuralEquals | Common/FsEntity.cs:57-74 | the comparison Equals evidently intends: never throws, true exactly for an instance structurally equal to the receiver, false for null and other types |
| FsEntities.EqualsAgreesWhenItReturns | Common/FsEntity.cs:57-74 | wherever Equals as written returns, it agrees with the corrected comparison |
| FsEntities.EqualEntitiesHashEqually | Common/FsEntity.cs:76-83 | entities that Equals reports equal have equal hash codes, for any string hash |
| FsEntities.Combine | Common/FsEntity.cs:45 | Path.Combine of a non-empty path and a non-empty relative name starts with the path and ends with the name |
| FsEntities.PathExtendsAncestorPath | Common/FsEntity.cs:38-51 | with no cache involved, an ancestor's path is a proper prefix of a descendant's path, which ends with the descendant's name |
| FsEntities.FsEntityNode.AncestorsAreShallower | Common/FsEntity.cs:11-45 | the objects of the parent chain are no deeper than the entity, and the entity is not among its parent's ancestors |
| FsEntities.FsEntityNode.Root | Common/FsEntity.cs:19-28 | a root entity object: no parent and nothing cached |
| FsEntities.FsEntityNode.Child | Common/FsEntity.cs:19-28 | an entity object under a parent object: linked to it and nothing cached |
| FsEntities.FsEntityNode.UncachedPath | Common/FsEntity.cs:38-51 | with nothing cached along the chain, Path is the root's name with each name combined in turn |
| FsEntities.FsEntityNode.Path | Common/FsEntity.cs:38-51 | returns the cached path if any, otherwise the parent's Path combined with the name, and caches it; a computed path leaves the parent's path cached too, and no path already cached along the chain is overwritten |
| FsEntities.FsEntityNode.SetPath | Common/FsEntity.cs:94-97 | overwrites the cache, so the next Path read returns the given path |
| Hierarchy.TypeOf | OrdinaryDumpDeduplicator/HierarchicalObject.cs:27 | the runtime type recorded is BlobInfo, File or Directory exactly as the wrapped object is a blob, a file or a directory |
| Hierarchy.WrappedEqualsMeaning | OrdinaryDumpDeduplicator/HierarchicalObject.cs:73 | wrapped objects are equal exactly when they are the same blob, or two entities with the same name and parent chain, a file and a directory included; blobs are compared by value and never equal an entity |
| Hierarchy.EqualWrappedHashEqually | OrdinaryDumpDeduplicator/HierarchicalObject.cs:60-81 | wrapped objects that compare equal hash equally |
| Hierarchy.HierarchicalObject.constructor | OrdinaryDumpDeduplicator/HierarchicalObject.cs:16-23 | stores every argument |
| Hierarchy.HierarchicalObject.Create | OrdinaryDumpDeduplicator/HierarchicalObject.cs:25-35 | a new node holding the object, its runtime type, the sort and the children, named by the representation when given and otherwise by the object's ToString |
| Hierarchy.HierarchicalObject.SetChildObjects | OrdinaryDumpDeduplicator/HierarchicalObject.cs:53-56 | replaces the children; the other fields are constant |
| Hierarchy.HierarchicalObject.Equals | OrdinaryDumpDeduplicator/HierarchicalObject.cs:60-75 | false for null and other types; otherwise true exactly when the wrapped objects are equal as above; between entities, NullReferenceException exactly when the other chain is deeper with the same names up to this root, and otherwise true exactly when the entities are equal |
| Hierarchy.HierarchicalObject.ToString | OrdinaryDumpDeduplicator/HierarchicalObject.cs:83-86 | the wrapped blob's text, or the wrapped entity's name |
| Hierarchy.EqualObjectsHashEqually | OrdinaryDumpDeduplicator/HierarchicalObject.cs:77-81 | nodes that compare equal have equal hash codes |
| Duplicates.FileInfo.constructor | OrdinaryDumpDeduplicator/FileInfo.cs:20-25 | holds the blob, file and data location it was given, belongs to no group yet and is unsorted |
| Duplicates.FileInfo.CurrentBlob | OrdinaryDumpDeduplicator/FileInfo.cs:31-45 | the group's blob once the file belongs to a group, its own blob before; the two agree whenever the file is consistent |
| Duplicates.FileInfo.SetSameContentFiles | OrdinaryDumpDeduplicator/FileInfo.cs:70-78 | joins the group exactly when the group's blob equals the file's blob; otherwise ArgumentException and the old group stays; the sort is untouched and consistency is kept |
| Duplicates.FileInfo.SetDuplicateSort | OrdinaryDumpDeduplicator/FileInfo.cs:80-83 | sets the sort and leaves the group alone |
| Duplicates.FileInfo.IsBlobTotallyIsolated | OrdinaryDumpDeduplicator/FileInfo.cs:53-60 | NullReferenceException without a group; otherwise fills the group's cached peculiarities and answers whether ContainsIsolatedFilesOnly is among them |
| Duplicates.Sorts | OrdinaryDumpDeduplicator/SameContentFilesInfo.cs:189-200 | the sorts of the members, position by position |
| Duplicates.AnalysisFlags | OrdinaryDumpDeduplicator/SameContentFilesInfo.cs:202-221 | each flag holds exactly when its count condition does: original-located files present or absent, isolated duplicates present, more than one original, exactly one file in total; the result is never None |
| Duplicates.Categories | OrdinaryDumpDeduplicator/SameContentFilesInfo.cs:83-99 | all duplicates isolated exactly when one original remains beside isolated copies; isolated files only exactly when no original remains and some copy is isolated; never both |
| Duplicates.FirstMismatch | OrdinaryDumpDeduplicator/SameContentFilesInfo.cs:24-27 | the position of the first member whose blob differs from the group's, the length when none does |
| Duplicates.SameContentFilesInfo.Init | OrdinaryDumpDeduplicator/SameContentFilesInfo.cs:17-20 | a group holding the blob and the members, with no peculiarities computed yet |
| Duplicates.SameContentFilesInfo.New | OrdinaryDumpDeduplicator/SameContentFilesInfo.cs:17-28 | succeeds exactly when every member has the group's blob; members before the first mismatch join the new group, the rest keep their old group, sorts are unchanged and consistency is kept; a mismatch is ArgumentException |
| Duplicates.CountSorts | OrdinaryDumpDeduplicator/SameContentFilesInfo.cs:189-200 | the number of members in their original location and the number of isolated members |
| Duplicates.SameContentFilesInfo.AnalyzeDuplicates | OrdinaryDumpDeduplicator/SameContentFilesInfo.cs:184-222 | the flags derived from the number of members in their original location and the number of isolated ones |
| Duplicates.SameContentFilesInfo.Peculiarities | OrdinaryDumpDeduplicator/SameContentFilesInfo.cs:70-81 | computes the flags once and caches them; the answer is never None |
| Duplicates.SameContentFilesInfo.AllDuplicatesIsolated | OrdinaryDumpDeduplicator/SameContentFilesInfo.cs:83-90 | AllDuplicatesIsolated is set and HasUnprocessedDuplicates is not |
| Duplicates.SameContentFilesInfo.ContainsIsolatedFilesOnly | OrdinaryDumpDeduplicator/SameContentFilesInfo.cs:92-99 | the ContainsIsolatedFilesOnly flag is set |
| Duplicates.SameContentFilesInfo.DuplicatesDataSize | OrdinaryDumpDeduplicator/SameContentFilesInfo.cs:43-59 | blob size times one less than the number of members in their original location, never a negative factor |
| Duplicates.SameContentFilesInfo.Equals | OrdinaryDumpDeduplicator/SameContentFilesInfo.cs:103-128 | equal exactly to another group with the same blob; null or another type is unequal |
| Duplicates.SameContentFilesInfo.GetHashCode | OrdinaryDumpDeduplicator/SameContentFilesInfo.cs:130-140 | the blob's hash code, so equal groups hash equally |
| Duplicates.SizeMetrics | OrdinaryDumpDeduplicator/SameContentFilesInfo.cs:34-68 | for a non-empty group all data is the duplicated data plus one copy, and the duplicates in original locations never weigh more than all duplicates |
| Duplicates.DirectoryWithDuplicates.constructor | OrdinaryDumpDeduplicator/DirectoryWithDuplicates.cs:17-29 | holds the directory, exactly the given subdirectories, and exactly the found duplicates, none when there were none |
| Grouping.DistinctElements | OrdinaryDumpDeduplicator/DataController/DataControllerSimple.cs:362-364 | Distinct keeps exactly the elements of its input, each once |
| Grouping.AddShape | OrdinaryDumpDeduplicator/DataController/DataControllerSimple.cs:229-237 | one grouping step appends a new key at the end or keeps the key order, adds the value under its key only (a HashSet skips a value already present), and keeps every entry non-empty |
| Grouping.GroupByOrder | OrdinaryDumpDeduplicator/DataController/DataControllerSimple.cs:216-248 | the grouping has one entry per key, in the order the keys first occur, and no entry is empty |
| Grouping.GroupByLookup | OrdinaryDumpDeduplicator/DataController/DataControllerSimple.cs:216-248 | under each key the grouping holds exactly the values paired with it, in order, each once with HashSet groups |
| Grouping.GroupByKeys | OrdinaryDumpDeduplicator/DataController/DataControllerSimple.cs:216-248 | a key has an entry exactly when some pair carries it, and no key has two entries |
| Grouping.GroupByEntries | OrdinaryDumpDeduplicator/DataController/DataControllerSimple.cs:216-248 | an entry belongs to the grouping exactly when its key occurs and it holds that key's values |
| Grouping.HashSetEntry | OrdinaryDumpDeduplicator/DataController/DataControllerSimple.cs:229-237 | an entry of a HashSet grouping is non-empty, holds no value twice, and holds exactly the values paired with its key |
| Grouping.Shared | OrdinaryDumpDeduplicator/DataController/DataControllerSimple.cs:250-263 | exactly the entries holding more than one value, taken from the grouping |
| Grouping.SelectMembers | OrdinaryDumpDeduplicator/DataController/DataControllerSimple.cs:323-347 | a value is paired with a key exactly when that pair occurs |
| Grouping.DistinctValues | OrdinaryDumpDeduplicator/DataController/DataControllerSimple.cs:359-367 | each entry keeps its key and loses the repeats among its values |
| Grouping.ListThenDistinct | OrdinaryDumpDeduplicator/DataController/DataControllerSimple.cs:323-367 | grouping into Lists and then removing repeats gives the same entries, in the same order, as grouping into HashSets |
| DataController.NearestRoot | OrdinaryDumpDeduplicator/DataController/DataControllerSimple.cs:106-123 | a root that is the directory or its ancestor, and of those the nearest; none when no root is above the directory |
| DataController.RootIndexContents | OrdinaryDumpDeduplicator/DataController/DataControllerSimple.cs:100-104 | indexing locations by root succeeds exactly when every location has a root and no two share one, and then maps each root to its location |
| DataController.RootIndexPrefixError | OrdinaryDumpDeduplicator/DataController/DataControllerSimple.cs:100-104 | once a prefix of the locations fails to index, the whole index fails with the same exception |
| DataController.DataControllerSimple.constructor | OrdinaryDumpDeduplicator/DataController/DataControllerSimple.cs:24-32 | all six collections start empty |
| DataController.DataControllerSimple.GetFilesOfDirectory | OrdinaryDumpDeduplicator/DataController/DataControllerSimple.cs:43-52 | NullReferenceException exactly when some registered file's parent has the directory's names up to the directory's root and goes on above it, as the directory's Equals then dereferences null; otherwise exactly the registered files lying directly in the directory; the subdirectory flag is ignored |
| DataController.DataControllerSimple.AddFile | OrdinaryDumpDeduplicator/DataController/DataControllerSimple.cs:54-57 | adds the file, keeping an equal one already present; nothing else changes |
| DataController.DataControllerSimple.AddDirectory | OrdinaryDumpDeduplicator/DataController/DataControllerSimple.cs:59-81 | registers the directory, every directory below it and every file in them, keeping entries already present; nothing else changes |
| DataController.DataControllerSimple.AddDataLocation | OrdinaryDumpDeduplicator/DataController/DataControllerSimple.cs:83-86 | adds the location unless that same object is registered; nothing else changes |
| DataController.DataControllerSimple.GetDataLocationsOf | OrdinaryDumpDeduplicator/DataController/DataControllerSimple.cs:131-142 | exactly the registered locations whose root is one of the directories |
| DataController.DataControllerSimple.GetDataLocations | OrdinaryDumpDeduplicator/DataController/DataControllerSimple.cs:91-145 | without upper directories the locations rooted at the directories; with them the index failure if roots are missing or shared, otherwise for each directory the location of its nearest root |
| DataController.DataControllerSimple.AddInspection | OrdinaryDumpDeduplicator/DataController/DataControllerSimple.cs:159-162 | adds the inspection unless that same object is registered; nothing else changes |
| DataController.DataControllerSimple.UpdateInspection | OrdinaryDumpDeduplicator/DataController/DataControllerSimple.cs:164-174 | passes exactly for a registered inspection, otherwise ArgumentException |
| DataController.DataControllerSimple.GetLastInspections | OrdinaryDumpDeduplicator/DataController/DataControllerSimple.cs:176-194 | the inspections kept per requested location by the last-inspection walk |
| DataController.LastInspectionsKeys | OrdinaryDumpDeduplicator/DataController/DataControllerSimple.cs:176-194 | a location gets an inspection exactly when it was requested and has one |
| DataController.LastInspectionIsLatest | OrdinaryDumpDeduplicator/DataController/DataControllerSimple.cs:181-189 | the kept inspection belongs to the location, starts no earlier than any other of it, and is the first one with that start |
| DataController.DataControllerSimple.AddFileState | OrdinaryDumpDeduplicator/DataController/DataControllerSimple.cs:196-199 | adds the state unless that same object is registered; nothing else changes |
| DataController.DataControllerSimple.AddBlobInfo | OrdinaryDumpDeduplicator/DataController/DataControllerSimple.cs:206-212 | adds the blob unless an equal one is registered, so adding twice is adding once; nothing else changes |
| DataController.DataControllerSimple.GroupCurrentStates | OrdinaryDumpDeduplicator/DataController/DataControllerSimple.cs:219-248 | the error of the state loop, or the grouping by blob of the pairs it feeds |
| DataController.CurrentPairsPrefixError | OrdinaryDumpDeduplicator/DataController/DataControllerSimple.cs:244-246 | once a prefix of the states throws, the whole loop throws the same |
| DataController.CurrentPairsMeaning | OrdinaryDumpDeduplicator/DataController/DataControllerSimple.cs:219-248 | the loop throws exactly when a selected state has no blob, always with a general exception; otherwise it feeds exactly the blob and file of every selected state |
| DataController.CurrentGroupMeaning | OrdinaryDumpDeduplicator/DataController/DataControllerSimple.cs:229-238 | each HashSet group is non-empty, repeats no file, and holds exactly the files of selected states carrying its blob |
| DataController.CurrentGroupComplete | OrdinaryDumpDeduplicator/DataController/DataControllerSimple.cs:229-238 | every blob of a selected state has its group |
| DataController.SelectedPairFed | OrdinaryDumpDeduplicator/DataController/DataControllerSimple.cs:219-238 | a state of the selected inspections and directories has a blob once the loop has passed, and its blob and file are fed to the grouping |
| DataController.DataControllerSimple.GetDuplicatesByHash | OrdinaryDumpDeduplicator/DataController/DataControllerSimple.cs:214-266 | the states of the last inspections grouped by blob with each file once, keeping only blobs held by more than one file; a state without a blob throws |
| DataController.KeepShared | OrdinaryDumpDeduplicator/DataController/DataControllerSimple.cs:250-263 | the groups holding more than one file, in order: every group it keeps is one of the input with more than one file, and every such group is kept |
| DataController.DuplicatesByHashComplete | OrdinaryDumpDeduplicator/DataController/DataControllerSimple.cs:250-263 | a blob carried by two different files of the last inspections is reported |
| DataController.DataControllerSimple.GetSubDirectories | OrdinaryDumpDeduplicator/DataController/DataControllerSimple.cs:276-298 | the registered children of the directories, or, when recursive, every registered directory reached from them through parent links |
| DataController.ReachesStep | OrdinaryDumpDeduplicator/DataController/DataControllerSimple.cs:290-295 | a directory is reached from a set exactly when it is a child of the set or reached from those children |
| DataController.NothingReachesEmpty | OrdinaryDumpDeduplicator/DataController/DataControllerSimple.cs:290 | nothing is reached from no directories, so the recursion stops |
| DataController.DataControllerSimple.GetDirectoryCurrentFiles | OrdinaryDumpDeduplicator/DataController/DataControllerSimple.cs:304-370 | the index failure when roots are missing or shared; otherwise the state loop's error, or the files of the last inspections in the given directories (and below them when asked) grouped by blob, single-file groups kept, each file once |
| DataController.DataControllerSimple.DistinctGroups | OrdinaryDumpDeduplicator/DataController/DataControllerSimple.cs:359-367 | each group with its repeats removed, in order |
| DataController.DataControllerSimple.DistinctFiles | OrdinaryDumpDeduplicator/DataController/DataControllerSimple.cs:362-364 | the first occurrence of each file, in order |
| DataController.DistinctValuesSnoc | OrdinaryDumpDeduplicator/DataController/DataControllerSimple.cs:359-367 | removing repeats group by group commutes with appending a group |
| DataController.DataControllerSimple.IsFileFromDirectory | OrdinaryDumpDeduplicator/DataController/DataControllerSimple.cs:372-387 | ArgumentException for an unregistered file, otherwise whether the directory is an ancestor of the file |
| DataController.DataControllerSimple.IsFileFromDirectoryAsWritten | OrdinaryDumpDeduplicator/DataController/DataControllerSimple.cs:372-387 | ArgumentException for an unregistered file, the relative path's failure when it fails, and true only when the relative path is longer than the file name plus one |
| DataController.ChildFileIsNotFromDirectoryAsWritten | OrdinaryDumpDeduplicator/DataController/DataControllerSimple.cs:378-379 | a file directly inside the directory fails the length test although the directory is its parent |
| DataController.SiblingFileIsFromDirectoryAsWritten | OrdinaryDumpDeduplicator/DataController/DataControllerSimple.cs:378-379 | a file of the parent directory passes the length test although the directory is not its ancestor |
| DataController.OutsideFileIsFromDirectoryAsWritten | OrdinaryDumpDeduplicator/DataController/DataControllerSimple.cs:378-379 | every registered file whose relative path climbs out of the directory with `..\` and then names at least the file passes the length test |
| Processing.ProcessorReport.constructor | OrdinaryDumpDeduplicator/DuplicatesProcessor.cs:95 | a report built from the groups to report and the locations, with nothing handed to it yet |
| Processing.ProcessorReport.AddFileInfo | OrdinaryDumpDeduplicator/DuplicatesProcessor.cs:176 | records that the FileInfo was handed to the report, after everything before |
| Processing.ProcessorReport.RemoveFileInfo | OrdinaryDumpDeduplicator/DuplicatesProcessor.cs:173 | records that the FileInfo was taken out of the report, after everything before |
| Processing.IsolatedDirectoriesMeaning | OrdinaryDumpDeduplicator/DuplicatesProcessor.cs:254-273 | the lookup of "isolated duplicates" directories fails exactly when a location whose directory is found occurs twice, and then with ArgumentException |
| Processing.IsolatedDirectoriesEntries | OrdinaryDumpDeduplicator/DuplicatesProcessor.cs:256-270 | exactly the locations whose directory is found get an entry, first as the named child of the root and then by the combined path, holding that directory |
| Processing.IsolatedDirectoriesPrefixError | OrdinaryDumpDeduplicator/DuplicatesProcessor.cs:266-269 | once a prefix of the locations fails, the whole lookup fails the same way |
| Processing.GetDirectoriesForIsolatedDuplicates | OrdinaryDumpDeduplicator/DuplicatesProcessor.cs:254-273 | the dictionary of found "isolated duplicates" directories, or the failure of adding a location twice |
| Processing.FirstUnregistered | OrdinaryDumpDeduplicator/DuplicatesProcessor.cs:277-282 | the first file in a location with a directory that the index does not know, the length when there is none |
| Processing.SetDuplicateSortToFileInfo | OrdinaryDumpDeduplicator/DuplicatesProcessor.cs:275-295 | passes exactly when no file in a location with a directory is unknown to the index, otherwise ArgumentException; the files before that one are tagged IsolatedDuplicate when they lie in their location's directory and InOriginalLocation otherwise, the rest keep their sort; groups are untouched |
| Processing.SetIsolatedDuplicateSortToFileInfo | OrdinaryDumpDeduplicator/DuplicatesProcessor.cs:366-372 | every file becomes an isolated duplicate, and groups are untouched |
| Processing.BlobPairs | OrdinaryDumpDeduplicator/DuplicatesProcessor.cs:340-342 | each file paired with the blob its getter returns, in order |
| Processing.BlobGroupMembers | OrdinaryDumpDeduplicator/DuplicatesProcessor.cs:339-351 | a blob group is not empty, repeats no file and holds only files of its blob |
| Processing.BlobGroupOfFile | OrdinaryDumpDeduplicator/DuplicatesProcessor.cs:339-351 | every file lies in the group of its own blob |
| Processing.BlobGroupsPartition | OrdinaryDumpDeduplicator/DuplicatesProcessor.cs:337-364 | the blob groups partition the files: no group is empty or repeats a file, no two share a blob, members carry their group's blob, and every file is in its blob's group |
| Processing.CollectBlobGroups | OrdinaryDumpDeduplicator/DuplicatesProcessor.cs:339-351 | the dictionary of HashSets the first loop builds is the grouping of the files by blob |
| Processing.NewGroup | OrdinaryDumpDeduplicator/DuplicatesProcessor.cs:356-358 | a fresh group holding the blob group's blob and members, attached to each member, whose sort is kept |
| Processing.NoMismatch | OrdinaryDumpDeduplicator/DuplicatesProcessor.cs:358 | files that all carry the group's blob do not make the group's constructor throw |
| Processing.AttachGroups | OrdinaryDumpDeduplicator/DuplicatesProcessor.cs:353-361 | one fresh group per blob group, in order; every file ends up attached to the group holding it, consistent, with its sort kept |
| Processing.GroupFilesWithSameContent | OrdinaryDumpDeduplicator/DuplicatesProcessor.cs:337-364 | one fresh group per blob of the files, mirroring the blob groups in the order the blobs were met; every file is attached to its group, which holds it, and keeps its sort |
| Processing.UnionByBlobGrows | OrdinaryDumpDeduplicator/DuplicatesProcessor.cs:327-334 | adding groups to a set keeps the groups already present, in order |
| Processing.UnionByBlobMeaning | OrdinaryDumpDeduplicator/DuplicatesProcessor.cs:327-334 | adding groups never repeats a blob, and a group is added only when no group already present carries its blob |
| Processing.BlobsOfPrefix | OrdinaryDumpDeduplicator/DuplicatesProcessor.cs:327-334 | a set of groups that extends another carries all of its blobs |
| Processing.UnionByBlobCovers | OrdinaryDumpDeduplicator/DuplicatesProcessor.cs:327-334 | after adding groups every blob among them is carried by the set |
| Processing.GetFilesToReport | OrdinaryDumpDeduplicator/DuplicatesProcessor.cs:322-335 | the set built from the duplicate groups, extended by each isolated-folder group whose blob is not yet present |
| Processing.FirstSetMeaning | OrdinaryDumpDeduplicator/DuplicatesProcessor.cs:327 | the set built from the duplicate groups repeats no blob, takes its groups from them and covers each of their blobs |
| Processing.FilesToReportOrigin | OrdinaryDumpDeduplicator/DuplicatesProcessor.cs:322-335 | the groups to report never repeat a blob, and each is a duplicate group or an isolated-folder group whose blob has no duplicate group |
| Processing.FilesToReportCover | OrdinaryDumpDeduplicator/DuplicatesProcessor.cs:322-335 | every blob of either input has a group to report |
| Processing.FilesToReportKeepsDuplicates | OrdinaryDumpDeduplicator/DuplicatesProcessor.cs:327 | duplicate groups with distinct blobs are all kept, first and in order |
| Processing.UnionOfDistinct | OrdinaryDumpDeduplicator/DuplicatesProcessor.cs:327 | building the set from groups with distinct blobs keeps them all, in order |
| Processing.FoundOutcome | OrdinaryDumpDeduplicator/DuplicatesProcessor.cs:75-91 | a null or empty location collection fails with ArgumentNullException before any query; passing implies locations were given and each query and lookup succeeded |
| Processing.ClassifyDuplicatesFound | OrdinaryDumpDeduplicator/DuplicatesProcessor.cs:85-86 | succeeds exactly when no found file in a location with a directory is unknown to the index, otherwise ArgumentException; then every found file is tagged by its location's directory and the groups mirror the blob groups |
| Processing.ClassifyIsolatedFiles | OrdinaryDumpDeduplicator/DuplicatesProcessor.cs:90-91 | every current file of the isolated directories is tagged IsolatedDuplicate and the groups mirror their blob groups |
| Processing.GetDuplicatesFound | OrdinaryDumpDeduplicator/DuplicatesProcessor.cs:75-96 | returns a report exactly when the staged outcome passes, otherwise its first exception; the report is fresh, untouched, holds the given locations and the union of the duplicate groups and the isolated-folder groups, each mirroring its query's files |
| Processing.MirroredBlob | OrdinaryDumpDeduplicator/DuplicatesProcessor.cs:337-364 | the blob of every grouped file is carried by one of the groups |
| Processing.ReportedBlobs | OrdinaryDumpDeduplicator/DuplicatesProcessor.cs:75-96 | the report repeats no blob, covers the blob of every file found and of every file in the isolated directories, and keeps an isolated-folder group only for a blob no found file carries |
| ProcessorActions.RemoveFile | OrdinaryDumpDeduplicator/DuplicatesProcessor.cs:160 | the file is no longer registered, and nothing else in the index changes |
| ProcessorActions.LastFileState | OrdinaryDumpDeduplicator/DuplicatesProcessor.cs:164 | the latest registered state of the file, none exactly when the file has no state |
| ProcessorActions.GetDirectoriesOnDisk | OrdinaryDumpDeduplicator/DataStructureHelper.cs:14-30 | the "isolated duplicates" directory of each location whose folder exists on disk |
| ProcessorActions.DeletionCheck | OrdinaryDumpDeduplicator/DuplicatesProcessor.cs:190-212 | passes exactly when every file to delete lies under one of the "isolated duplicates" directories; fails with ArgumentException for a file the index does not know or with a general exception for one outside them, and always fails when there are files but no such directory |
| ProcessorActions.IsFileFromIsolatedDuplicatesDir | OrdinaryDumpDeduplicator/DuplicatesProcessor.cs:194-202 | whether one of the directories holds the file, asking each in turn, or the index's exception for an unknown file |
| ProcessorActions.CheckFilesToDelete | OrdinaryDumpDeduplicator/DuplicatesProcessor.cs:190-212 | fails exactly when the deletion check does, with its exception; otherwise the files to delete, each once, in order |
| ProcessorActions.Deleted | OrdinaryDumpDeduplicator/DuplicatesProcessor.cs:216-245 | exactly the files the file system deleted, in order |
| ProcessorActions.Removals | OrdinaryDumpDeduplicator/DuplicatesProcessor.cs:241 | one removal from the report per deleted file, in order |
| ProcessorActions.DeleteFile | OrdinaryDumpDeduplicator/DuplicatesProcessor.cs:218-244 | a file the file system fails to delete is skipped with nothing recorded; a deleted one is unregistered, its last state marked removed with the broken blob, and its FileInfo taken out of the report; a deleted file with no state throws NullReferenceException |
| ProcessorActions.DeleteNext | OrdinaryDumpDeduplicator/DuplicatesProcessor.cs:216-245 | one step of the deletion loop keeps the record of everything deleted so far |
| ProcessorActions.DeleteFiles | OrdinaryDumpDeduplicator/DuplicatesProcessor.cs:214-247 | throws NullReferenceException exactly when a deleted file has no state; otherwise returns the files deleted, unregisters them, marks their last states removed, takes them out of the report, and leaves every other state's status and blob, and every state's previous state, as it was |
| ProcessorActions.DeleteEach | OrdinaryDumpDeduplicator/DuplicatesProcessor.cs:216-245 | the deletion loop: throws NullReferenceException exactly when a deleted file has no state; otherwise returns the files deleted, with the record of their deletion measured from the state before the loop |
| ProcessorActions.DeleteDuplicates | OrdinaryDumpDeduplicator/DuplicatesProcessor.cs:185-248 | a rejected check throws with nothing changed; otherwise the distinct files the file system deleted, recorded as DeleteFiles states, or NullReferenceException for a deleted file with no state |
| ProcessorMove.WithTrailingSeparator | OrdinaryDumpDeduplicator/FileSystemHelper.cs:81-88 | the path unchanged or extended by one character so that it ends in the directory separator |
| ProcessorMove.IsolatedDuplicatesDirectories | OrdinaryDumpDeduplicator/DuplicatesProcessor.cs:101-113 | on success every duplicate's directory has an entry |
| ProcessorMove.IsolatedDuplicatesDirectoriesErrorPersists | OrdinaryDumpDeduplicator/DuplicatesProcessor.cs:105-112 | once a prefix of the duplicates fails, the whole collection fails the same way |
| ProcessorMove.IsolatedDuplicatesDirectoriesKeys | OrdinaryDumpDeduplicator/DuplicatesProcessor.cs:101-113 | on success the keys are exactly the directories of the duplicates, each once |
| ProcessorMove.IsolatedDuplicatesDirectoriesSucceed | OrdinaryDumpDeduplicator/DuplicatesProcessor.cs:105-112 | succeeds exactly when the relative path of the first duplicate of each directory can be computed |
| ProcessorMove.IsolatedDuplicatesDirectoriesEntries | OrdinaryDumpDeduplicator/DuplicatesProcessor.cs:105-112 | every entry is built from the first duplicate of its directory: that directory, with the duplicate's location and the directory's path relative to it |
| ProcessorMove.CollectIsolatedDuplicatesDirectories | OrdinaryDumpDeduplicator/DuplicatesProcessor.cs:100-113 | the dictionary of targets the first loop builds, or the relative path's failure |
| ProcessorMove.Descend | OrdinaryDumpDeduplicator/DuplicatesProcessor.cs:299-317 | a chain walk that succeeds over a non-empty chain ends at some directory |
| ProcessorMove.DescendRegisters | OrdinaryDumpDeduplicator/DuplicatesProcessor.cs:299-317 | the walk only adds directories, ends at a registered one, and every directory it adds has a registered parent |
| ProcessorMove.DestinationsErrorPersists | OrdinaryDumpDeduplicator/DuplicatesProcessor.cs:116-133 | once a prefix of the targets fails, preparing all of them fails the same way |
| ProcessorMove.DestinationsKeys | OrdinaryDumpDeduplicator/DuplicatesProcessor.cs:116-133 | on success there is one destination per directory with duplicates |
| ProcessorMove.DestinationsRegistered | OrdinaryDumpDeduplicator/DuplicatesProcessor.cs:116-133 | on success the registered directories only grow and every destination is registered |
| ProcessorMove.AddDirectoryForIsolatedDuplicates | OrdinaryDumpDeduplicator/DuplicatesProcessor.cs:297-318 | the chain walk from the location's root: its failure, or its last directory with every missing directory registered; nothing else in the index changes |
| ProcessorMove.PrepareDestinations | OrdinaryDumpDeduplicator/DuplicatesProcessor.cs:115-133 | the destination of every directory with duplicates, found or registered, or the first failure; nothing else in the index changes |
| ProcessorMove.CarryStateOverAsWritten | OrdinaryDumpDeduplicator/DuplicatesProcessor.cs:164-169 | the old state becomes removed with the broken blob; the new state follows it at the new place with the duplicate's blob, and is removed too |
| ProcessorMove.MovedFileLosesItsStatus | OrdinaryDumpDeduplicator/DuplicatesProcessor.cs:166-169 | a moved file whose last state was New is recorded with another status at its new place |
| ProcessorMove.CarryStateOver | OrdinaryDumpDeduplicator/DuplicatesProcessor.cs:164-169 | the old state becomes removed with the broken blob; the new state follows it at the new place with the duplicate's blob and keeps the status the old state had |
| ProcessorMove.RecordMove | OrdinaryDumpDeduplicator/DuplicatesProcessor.cs:160-176 | one new registered state following the old one, and the report loses the old FileInfo and gains a fresh isolated one for the moved file with the duplicate's blob; the file, directory and location sets are untouched here |
| ProcessorMove.MoveFile | OrdinaryDumpDeduplicator/DuplicatesProcessor.cs:140-179 | a file the file system fails to move changes nothing; a moved one is recorded as RecordMove says, unless the new file cannot be built (ArgumentException) or the old one has no state (NullReferenceException) |
| ProcessorMove.MovedDuplicates | OrdinaryDumpDeduplicator/DuplicatesProcessor.cs:138-179 | exactly the duplicates the file system moved to their destination path |
| ProcessorMove.MovedStep | OrdinaryDumpDeduplicator/DuplicatesProcessor.cs:157-178 | a recorded move extends the record of all moves so far |
| ProcessorMove.MoveNext | OrdinaryDumpDeduplicator/DuplicatesProcessor.cs:138-179 | one step of the move loop: an unmoved file changes nothing and a moved one is recorded; it fails exactly when the file was moved and its new file cannot be built (ArgumentException) or it has no registered state (NullReferenceException) |
| ProcessorMove.FirstMoveFailurePersists | OrdinaryDumpDeduplicator/DuplicatesProcessor.cs:138-179 | once some turn of the move loop throws, the loop ends with that exception whatever follows |
| ProcessorMove.FirstMoveFailureSnoc | OrdinaryDumpDeduplicator/DuplicatesProcessor.cs:138-179 | after turns that went through, the loop fails exactly as its next turn does |
| ProcessorMove.NothingMovedNeverFails | OrdinaryDumpDeduplicator/DuplicatesProcessor.cs:146-157 | when the file system moves none of the duplicates, the loop never throws |
| ProcessorMove.RecordedFiles | OrdinaryDumpDeduplicator/DuplicatesProcessor.cs:160-169 | after recorded moves, a file has a registered state exactly when it had one before or a move took a duplicate to it |
| ProcessorMove.MovedStateFiles | OrdinaryDumpDeduplicator/DuplicatesProcessor.cs:138-179 | during the move loop, GetLastFileState finds a state exactly for the files registered before the loop and those earlier moves created |
| ProcessorMove.MoveStep | OrdinaryDumpDeduplicator/DuplicatesProcessor.cs:138-179 | one turn: it fails exactly as the first failure of the turns so far, and otherwise the progress of the loop goes one duplicate further |
| ProcessorMove.MoveTurn | OrdinaryDumpDeduplicator/DuplicatesProcessor.cs:138-179 | turn i over the whole list: a failing turn is the failure of the whole loop; otherwise the loop has progressed over the first i + 1 duplicates |
| ProcessorMove.MoveEach | OrdinaryDumpDeduplicator/DuplicatesProcessor.cs:135-182 | the loop over all duplicates: the first failure, or the progress over every duplicate |
| ProcessorMove.MoveFiles | OrdinaryDumpDeduplicator/DuplicatesProcessor.cs:135-182 | the moved pairs have exactly the moved duplicates as keys, each once, and the index and report record every move: the file's last state becomes Removed with the Broken blob, a new state follows it with the duplicate's blob, the new FileInfo is an IsolatedDuplicate with that blob, and every other state keeps its fields; it throws exactly at the first duplicate that the file system moved and whose new file cannot be built (ArgumentException), that has no state registered before the loop or recorded by an earlier move (NullReferenceException), or that was moved already (ArgumentException) |
| ProcessorMove.MoveDuplicatesToSpecialFolder | OrdinaryDumpDeduplicator/DuplicatesProcessor.cs:98-183 | a failing relative path throws with nothing changed; a failing destination throws its error; then the moves throw exactly as MoveFiles states, over the states registered before, and otherwise the moved duplicates, each once, each recorded in the index and the report as MoveFiles states |
| Reports.Flatten | OrdinaryDumpDeduplicator/DuplicateReport.cs:52-59 | a file is listed exactly when some group holds it |
| Reports.ParentPairsIndex | OrdinaryDumpDeduplicator/DuplicateReport.cs:59-67 | each file paired with its parent directory, in order |
| Reports.FolderGroupsArePairGroups | OrdinaryDumpDeduplicator/DuplicateReport.cs:56-69 | the folder grouping loop is the List grouping of the files by parent |
| Reports.FolderGroupsMeaning | OrdinaryDumpDeduplicator/DuplicateReport.cs:56-75 | every folder group is non-empty and holds exactly the files whose parent is its directory, and every file's parent has its group |
| Reports.IsDirectoryInIsolatedDuplicates | OrdinaryDumpDeduplicator/DuplicateReport.cs:316-330 | true exactly when the directory or one of its ancestors is an "isolated duplicates" directory |
| Reports.IsolatedCount | OrdinaryDumpDeduplicator/DuplicateReport.cs:298-302 | the number of files in an isolated directory, never more than the files |
| Reports.FileSortFlags | OrdinaryDumpDeduplicator/DuplicateReport.cs:294-307 | a file object is a file specimen, never a blob, isolated or in its original location according to its directory, and unique exactly for a one-file group |
| Reports.ValidatorSorts | OrdinaryDumpDeduplicator/DuplicateReport.cs:187-280 | an unprocessed group is rejected exactly when it has one original file, and then has unprocessed duplicates exactly for more than one; a partially isolated group needs isolated and original files and contains AllDuplicatesIsolated, equal to it exactly for one original; a unique-isolated group needs no original file and some isolated file, and is marked ContainsUniqueIsolatedFiles |
| Reports.DirectoryChildren.constructor | OrdinaryDumpDeduplicator/DuplicateReport.cs:88 | no directories and no children yet |
| Reports.DirectoryChildren.Add | OrdinaryDumpDeduplicator/DuplicateReport.cs:92 | Dictionary.Add: a new key is appended with no children, an existing key throws ArgumentException and changes nothing |
| Reports.DirectoryChildren.AddChild | OrdinaryDumpDeduplicator/DuplicateReport.cs:349 | the child is added to the parent's HashSet unless already there; key order is kept |
| Reports.NewKeysStep | OrdinaryDumpDeduplicator/DuplicateReport.cs:341-355 | a step of AddDirectory adds only the directory and its ancestors as keys |
| Reports.NewChildrenStep | OrdinaryDumpDeduplicator/DuplicateReport.cs:341-355 | a step of AddDirectory records only directories on the way up as children of their parents |
| Reports.ExtendsStep | OrdinaryDumpDeduplicator/DuplicateReport.cs:339-356 | a step of AddDirectory keeps every key and child already present |
| Reports.AddDirectory | OrdinaryDumpDeduplicator/DuplicateReport.cs:339-356 | the directory becomes a key and a child of its parent, keys are only appended, only the directory and its ancestors are added, every child stays a key; a dictionary whose keys are all recorded under their parents stays so, and then no child comes to precede its parent |
| Reports.AddUnderParent | OrdinaryDumpDeduplicator/DuplicateReport.cs:349-355 | the directory is recorded under its parent, then appended as a key when it is not one |
| Reports.AddStep | OrdinaryDumpDeduplicator/DuplicateReport.cs:341-355 | adding the parent and then the directory under it keeps every child a key, extends the dictionary for the directory, and keeps keys recorded under their parents and parents first |
| Reports.StepLinked | OrdinaryDumpDeduplicator/DuplicateReport.cs:349-355 | on a dictionary whose keys are recorded under their parents, a directory already a key changes nothing, and a new one is appended last, so no child precedes its parent |
| Reports.RootStep | OrdinaryDumpDeduplicator/DuplicateReport.cs:352-355 | a parentless directory added as the last key keeps every child a key, keys recorded under their parents and parents first |
| Reports.AddDirectoryClosure | OrdinaryDumpDeduplicator/DuplicateReport.cs:339-356 | after adding, the keys are the old keys plus the directory and all its ancestors, and the key set is closed under parents |
| Reports.AncestorsAreKeys | OrdinaryDumpDeduplicator/DuplicateReport.cs:341-346 | every ancestor of an added directory is a key |
| Reports.ChildrenUnderParentKept | OrdinaryDumpDeduplicator/DuplicateReport.cs:349 | every recorded child still has its key as parent |
| Reports.MakeChildDirectoryObjects | OrdinaryDumpDeduplicator/DuplicateReport.cs:109-114 | fails with ArgumentException exactly when a child already has an object; otherwise one fresh object per child, in order, with no children, added to the objects |
| Reports.MakeGroupFileObjects | OrdinaryDumpDeduplicator/DuplicateReport.cs:116-123 | one object per file of the directory, in order |
| Reports.ChildrenMade | OrdinaryDumpDeduplicator/DuplicateReport.cs:105-114 | a child directory of the next key already has an object exactly when it is a key processed earlier, and it is never the key itself |
| Reports.MakeDirectoryChildren | OrdinaryDumpDeduplicator/DuplicateReport.cs:105-123 | fails with ArgumentException exactly when a child directory of the key was processed earlier as a key; otherwise the key's children are the objects of its child directories, made fresh and empty, followed by its file objects, and the earlier objects are kept |
| Reports.ProcessDirectory | OrdinaryDumpDeduplicator/DuplicateReport.cs:103-133 | fails exactly as making the children does; otherwise one more key is processed: the objects are those of the keys so far and their child directories, each for its own directory, and every key so far holds exactly its child directories' objects followed by its file objects |
| Reports.SetExistingChildren | OrdinaryDumpDeduplicator/DuplicateReport.cs:125-128 | a key whose object was made as a child gets its children, and the objects stay a consistent state one key further |
| Reports.CreateWithChildren | OrdinaryDumpDeduplicator/DuplicateReport.cs:129-133 | a key without an object gets a fresh one with its children, and the objects stay a consistent state one key further |
| Reports.ProcessedState | OrdinaryDumpDeduplicator/DuplicateReport.cs:103-133 | after a step the objects exist exactly for the keys processed and their child directories, and the earlier keys keep their children |
| Reports.MadeStep | OrdinaryDumpDeduplicator/DuplicateReport.cs:103-133 | processing a key adds exactly it and its child directories to the directories with objects |
| Reports.ReportStep | OrdinaryDumpDeduplicator/DuplicateReport.cs:103-139 | fails with ArgumentException exactly when the key has a child directory among the keys before it; otherwise keeps every processed object, extends the consistent state by one key and collects the root objects in order |
| Reports.ParentsFirstStep | OrdinaryDumpDeduplicator/DuplicateReport.cs:103-114 | the keys stay parents first one key further exactly when the next key has no child directory among the keys before it |
| Reports.ReportedAtEnd | OrdinaryDumpDeduplicator/DuplicateReport.cs:101-141 | once every key is processed there is exactly one object per key, for that key, holding its child directories' objects and then its file objects |
| Reports.RootsReportedStep | OrdinaryDumpDeduplicator/DuplicateReport.cs:135-138 | a directory is a root exactly when it was added from a location, and only root objects are collected |
| Reports.RootsAddedStep | OrdinaryDumpDeduplicator/DuplicateReport.cs:89-93 | adding one more location root keeps the roots in location order, with no children |
| Reports.DuplicateReport.constructor | OrdinaryDumpDeduplicator/DuplicateReport.cs:26-39 | holds the locations, the three groupings and the isolated directories, with no folder grouping computed yet |
| Reports.DuplicateReport.AnalyzeDuplicatesAndGroupByFolders | OrdinaryDumpDeduplicator/DuplicateReport.cs:49-79 | the cached grouping when there is one; otherwise the files of the unprocessed and partially isolated groups grouped by parent folder, which is then cached |
| Reports.GroupByFolders | OrdinaryDumpDeduplicator/DuplicateReport.cs:56-75 | the dictionary built by the two nested loops is exactly the files of all hash groups, in order, grouped by parent folder, each folder listed once in order of first appearance |
| Reports.DuplicateReport.AddRoots | OrdinaryDumpDeduplicator/DuplicateReport.cs:87-93 | fails exactly as the index by root does (a location without a root, or two sharing one); otherwise the location roots in order, with no children |
| Reports.DuplicateReport.GroupDuplicatesByDirectories | OrdinaryDumpDeduplicator/DuplicateReport.cs:81-142 | fills the folder cache; then the root index's exception when roots are missing or shared; otherwise ArgumentException exactly when some key of the dictionary built has a child directory among the keys before it, which never happens for parentless roots; otherwise one object per location root, in order, in a tree with exactly one object per key, each holding its child directories' objects and then one unsorted object per file with duplicates |
| Reports.DuplicateReport.ReportFolders | OrdinaryDumpDeduplicator/DuplicateReport.cs:87-141 | the same outcome for a given folder grouping, with the dictionary built and the objects made as ghost results |
| Reports.AddFolders | OrdinaryDumpDeduplicator/DuplicateReport.cs:95-99 | every folder with duplicates becomes a key and the old keys stay first; every new key is an ancestor-or-self of a folder; when the old keys are closed under parents the keys become exactly the old keys and every ancestor-or-self of a folder; keys recorded under their parents with parents first stay so |
| Reports.FoldersStep | OrdinaryDumpDeduplicator/DuplicateReport.cs:95-99 | adding one more folder keeps the state of the loop: old keys kept, new keys under the folders so far, the closure and the parents-first order |
| Reports.NewKeysUnderGroups | OrdinaryDumpDeduplicator/DuplicateReport.cs:95-99 | the keys added for the next folder are ancestors-or-self of it |
| Reports.ClosedStep | OrdinaryDumpDeduplicator/DuplicateReport.cs:95-99 | closed keys that are the start keys and the ancestors-or-self of the first folders stay so with one more folder |
| Reports.FoldersKeyedFrom | OrdinaryDumpDeduplicator/DuplicateReport.cs:87-99 | after the roots and the folders: the roots first, in the locations' order, every folder a key, every other key an ancestor of one, exactly the roots and the ancestors-or-self of the folders when the roots are closed, parents first when the roots have no parents |
| Reports.RootsStart | OrdinaryDumpDeduplicator/DuplicateReport.cs:87-93 | the dictionary of the roots has no children, so it is parents first; with parentless roots every key is recorded under its parent and the keys are closed |
| Reports.DuplicateReport.ReportObjects | OrdinaryDumpDeduplicator/DuplicateReport.cs:101-141 | ArgumentException exactly when some key has a child directory among the keys before it; otherwise one object per key, each holding its child directories' objects then its file objects, and the first keys' objects returned in order |
| Reports.DuplicateReport.AddFolderGroups | OrdinaryDumpDeduplicator/DuplicateReport.cs:57-69 | adding a group's files continues the folder grouping of all files so far |
| Reports.DuplicateReport.MakeBlobObject | OrdinaryDumpDeduplicator/DuplicateReport.cs:214 | the blob's object named by the blob, holding the file objects in order |
| Reports.DuplicateReport.MakeUnprocessedDuplicatesObject | OrdinaryDumpDeduplicator/DuplicateReport.cs:187-216 | throws a general exception exactly when the unprocessed validator rejects the group; otherwise the blob object with that sort |
| Reports.DuplicateReport.MakeComplexBlobObject | OrdinaryDumpDeduplicator/DuplicateReport.cs:218-251 | throws a general exception exactly when the partially isolated validator rejects the group; otherwise the blob object with that sort |
| Reports.DuplicateReport.MakeUniqueIsolatedObject | OrdinaryDumpDeduplicator/DuplicateReport.cs:253-280 | throws a general exception exactly when the unique-isolated validator rejects the group; otherwise the blob object with that sort |
| Reports.DuplicateReport.MakeGroupObject | OrdinaryDumpDeduplicator/DuplicateReport.cs:152-176 | a group's blob object with the sort of its kind, failing exactly when that kind's validator rejects it |
| Reports.DuplicateReport.ReportBlobs | OrdinaryDumpDeduplicator/DuplicateReport.cs:147-180 | succeeds exactly when every group passes its validator; then the earlier objects followed by one blob object per group, in order |
| Reports.DuplicateReport.GroupDuplicatesByHash | OrdinaryDumpDeduplicator/DuplicateReport.cs:144-166 | one object per unprocessed blob followed by one per partially isolated blob, failing exactly when a group is rejected |
| Reports.DuplicateReport.GetUniqueIsolatedFiles | OrdinaryDumpDeduplicator/DuplicateReport.cs:168-181 | one object per unique-isolated blob, failing exactly when a group is rejected |
| Reports.DuplicateReport.MakeFileObject | OrdinaryDumpDeduplicator/DuplicateReport.cs:332-337 | the file's object, named by the file and its directory's path, with the given sort and no children |
| Reports.DuplicateReport.MakeFileObjects | OrdinaryDumpDeduplicator/DuplicateReport.cs:282-314 | one fresh object per file, sorted by its directory and whether it is alone; the isolated count is the files in isolated directories and the two counts sum to the number of files |
| Deduplicator.WrapInt32 | OrdinaryDumpDeduplicator/OrdinaryDumpDeduplicator.cs:212-225 | the Int32 an unchecked computation yields: the value itself when it fits, and always congruent to it modulo 2^32 |
| Deduplicator.WrapInt64 | OrdinaryDumpDeduplicator/OrdinaryDumpDeduplicator.cs:212-225 | the Int64 an unchecked computation yields: the value itself when it fits, and always congruent to it modulo 2^64 |
| Deduplicator.WrapInt32Add | OrdinaryDumpDeduplicator/OrdinaryDumpDeduplicator.cs:222 | adding to a wrapped counter wraps like adding to the exact count |
| Deduplicator.WrapInt64Add | OrdinaryDumpDeduplicator/OrdinaryDumpDeduplicator.cs:223 | adding to a wrapped sum wraps like adding to the exact sum |
| Deduplicator.ObservedOf | OrdinaryDumpDeduplicator/OrdinaryDumpDeduplicator.cs:216-220 | the status and size of each state, in order |
| Deduplicator.AvailableBounds | OrdinaryDumpDeduplicator/OrdinaryDumpDeduplicator.cs:216-225 | the available files are never more than the states, and never more than their total size, since each has a positive size |
| Deduplicator.AttributedObservations | OrdinaryDumpDeduplicator/OrdinaryDumpDeduplicator.cs:161-180 | what each new state shows: Unknown and the file's length when its attributes were read, Error and size -1 otherwise |
| Deduplicator.AttributedAvailability | OrdinaryDumpDeduplicator/OrdinaryDumpDeduplicator.cs:161-180 | the states just created count exactly the readable files with positive length, and their size is those files' total length |
| Deduplicator.ReadableBounds | OrdinaryDumpDeduplicator/OrdinaryDumpDeduplicator.cs:211-226 | no more files are counted than there are, and the counted files' total length is at least their number |
| Deduplicator.CountersAcceptReadable | OrdinaryDumpDeduplicator/OrdinaryDumpDeduplicator.cs:66-72 | the progress counters refuse a scan with no readable file with content; without Int32 or Int64 wrap-around they accept every other scan |
| Deduplicator.SavedBlob | OrdinaryDumpDeduplicator/OrdinaryDumpDeduplicator.cs:115-131 | Broken when hashing fails or the length is negative, Empty for length 0, the hashed blob for a positive length with a 20-byte digest; a hashing failure never escapes |
| Deduplicator.HashedState | OrdinaryDumpDeduplicator/OrdinaryDumpDeduplicator.cs:85-110 | a file that can be hashed is New with its blob; one that cannot is Unreadable with the Broken blob |
| Deduplicator.UnreadableNeverRecorded | OrdinaryDumpDeduplicator/OrdinaryDumpDeduplicator.cs:92-101 | for a file whose hashing fails the code as written records New with the Broken blob, where Unreadable was meant |
| Deduplicator.HashedStatesAgree | OrdinaryDumpDeduplicator/OrdinaryDumpDeduplicator.cs:85-110 | the corrected and the as-written hashing record the same blob, and the same state exactly when hashing succeeds |
| Deduplicator.OrdinaryDumpDeduplicator.constructor | OrdinaryDumpDeduplicator/OrdinaryDumpDeduplicator.cs:18-23 | a fresh, empty index and no current location |
| Deduplicator.OrdinaryDumpDeduplicator.CountFilesAndSize | OrdinaryDumpDeduplicator/OrdinaryDumpDeduplicator.cs:211-226 | the wrapped number of states that are neither Error nor Unreadable and have a positive size, and the wrapped sum of their sizes |
| Deduplicator.OrdinaryDumpDeduplicator.GetDataLocation | OrdinaryDumpDeduplicator/OrdinaryDumpDeduplicator.cs:194-209 | a registered location rooted at the directory: an existing one when there is one, otherwise a fresh one registered last, whose path is the directory's cached path; with distinct roots it is the only one for the directory, and roots stay distinct; nothing else changes |
| Deduplicator.OrdinaryDumpDeduplicator.GetAttributesOfFiles | OrdinaryDumpDeduplicator/OrdinaryDumpDeduplicator.cs:153-192 | throws ArgumentException exactly when there is no file, from its progress counter (Common/ProgressCounter/ProgressCounter.cs lines 42-44, IntegerSingleValue.cs lines 16-20), with nothing registered; otherwise the states RecordAttributes creates, registered after the earlier ones, and nothing else changes |
| Deduplicator.OrdinaryDumpDeduplicator.RecordAttributes | OrdinaryDumpDeduplicator/OrdinaryDumpDeduplicator.cs:161-191 | one fresh, distinct state per file, in order, with no previous state: Unknown without a blob when the attributes are read, Error with size -1, the failure time and the Broken blob otherwise; each is registered, and nothing else changes |
| Deduplicator.OrdinaryDumpDeduplicator.ComputeAndSaveBlobInfo | OrdinaryDumpDeduplicator/OrdinaryDumpDeduplicator.cs:115-131 | the saved blob of the file's hash, which is then registered; nothing else changes |
| Deduplicator.OrdinaryDumpDeduplicator.ComputeHashesOfFilesAsWritten | OrdinaryDumpDeduplicator/OrdinaryDumpDeduplicator.cs:85-113 | every state is marked New with the saved blob, its previous state untouched, and every saved blob is registered |
| Deduplicator.OrdinaryDumpDeduplicator.TryComputeAndSaveBlobInfo | OrdinaryDumpDeduplicator/OrdinaryDumpDeduplicator.cs:115-131 | the hashed blob, registered, or the hashing failure with nothing registered |
| Deduplicator.OrdinaryDumpDeduplicator.ComputeHashesOfFiles | OrdinaryDumpDeduplicator/OrdinaryDumpDeduplicator.cs:85-113 | every state gets the corrected hashed status and blob, its previous state untouched; every successfully hashed blob is registered, the Broken blob of a failed hashing is not |
| Deduplicator.OrdinaryDumpDeduplicator.AttributeAndHash | OrdinaryDumpDeduplicator/OrdinaryDumpDeduplicator.cs:66-75 | throws ArgumentException exactly when a progress counter refuses the scan (no file, or a wrapped count or total size of the readable files of zero): with no file nothing is registered, otherwise the states are registered and none is hashed; else one fresh state per scanned file, in order, recorded from its attributes, still unlinked and hashed, registered after the earlier ones, with the hashed blobs added; the other registers are unchanged |
| Deduplicator.OrdinaryDumpDeduplicator.InspectFiles | OrdinaryDumpDeduplicator/OrdinaryDumpDeduplicator.cs:66-77 | a refused scan throws ArgumentException as AttributeAndHash does, leaving the inspection unfinished; otherwise the states are created, registered and hashed, and only then is the inspection finished, at the finishing moment |
| Deduplicator.OrdinaryDumpDeduplicator.RecordScan | OrdinaryDumpDeduplicator/OrdinaryDumpDeduplicator.cs:63-78 | after a successful scan of a registered inspection the scanned directories and files are registered; a refused scan then throws ArgumentException with the inspection unfinished and no blob added; otherwise each file gets one fresh inspected state registered in order, the hashed blobs are added, and the inspection is finished at the finishing moment; locations and inspections are unchanged |
| Deduplicator.OrdinaryDumpDeduplicator.DoInspection | OrdinaryDumpDeduplicator/OrdinaryDumpDeduplicator.cs:46-83 | registers a fresh inspection started now before scanning; a failing scan throws, leaving it unfinished, no location current and nothing else registered; otherwise registers the scanned tree and one state per file; a scan with no file, or with no readable file with content, then throws ArgumentException from a progress counter, leaving the inspection unfinished, no location current and no state hashed; otherwise hashes every state, finishes the inspection and makes the location current |

## Left out

- The file system, SHA-1 and the scanner (`FsUtils`, `FileSystemHelper`, `FileSystemProvider`, `DataStructureHelper`) are not part of this model: their answers are parameters (`Environment`, `FileSystem`, `PathHelpers`). Each is a fixed function of its arguments: a move, a deletion, `Directory.Exists`, the hashing, the attributes and the directory walk may succeed or fail on any input, but give the same answer whenever they are asked the same question, so the model has no file-system state that earlier calls change.
- `FileSystemHelper.GetRelativePath` is a parameter: its `System.Uri` arithmetic is not modelled; only the trailing separator it adds is (`ProcessorMove.WithTrailingSeparator`).
- Creating the "isolated duplicates" directories on disk is not modelled; only the entries the index and the processor record for them are.
- The clock is a parameter (`now`) that names the moment it is read at; dates are integers and are never formatted.
- `HashSet` and `Dictionary` enumeration order is not specified by .NET; the model enumerates in insertion order.
- Progress counters (`OperationProgressCounter`, `IntegerSingleValue`, `IntegerDoubleValue`) are modelled only where they change the outcome: `Initialize` throws ArgumentException when the last expected value is zero (`InitializeProgress`, `IsNotNull`). The attributes counter expects the number of files, and the hashing counter the wrapped count and total size from `CountFilesAndSize`. The values they record, their child counters and their progress reports are left out: nothing else reads them.
- `Helper.GetDataSizeString` uses floating point; the `ToString` methods that use it take its text as a parameter.
- The Desktop project, background workers (`AbstractWorker`, `DataProcessor`, `FileUtils`) and `Digest` are presentation or unused code and are not modelled.
- The calls the shown revision makes to members no shown file declares get minimal definitions: `GetDuplicates` and `GetDirectoryCurrentFiles` as processor queries (`Queries`), the two `FindDirectory` lookups (`Lookups`), `RemoveFile`, `GetLastFileState`, and a report class with `AddFileInfo` and `RemoveFileInfo` (`Processing.ProcessorReport`). `FileSystemHelper.GetCombinedPath` (called at `DuplicatesProcessor.cs` lines 35, 48 and 144) is taken to be `Path.Combine` (`FsEntities.Combine`), and `FileSystemHelper.GetChainOfNestedDirectories` (line 300) is a parameter (`PathHelpers.chainOfNestedDirectories`).
- The `DuplicateSort` enum is not shown; it is declared with three values, `Unsorted` (the zero value a new `FileInfo` starts with), `InOriginalLocation` and `IsolatedDuplicate`.
- `DataControllerSimple.Initialize`, `UpdateFileState` and `GetSimilarFileStates` are empty or return an empty array; they are not modelled.
- `DataControllerSimple.GetDataLocations()` without arguments returns the `dataLocations` field, which the model exposes directly.
- `OrdinaryDumpDeduplicator.AddDataLocation` calls a `Directory` constructor that no shown revision declares, and `Initialize` only forwards to the index; neither is modelled.
- `OrdinaryDumpDeduplicator.MoveKnownDuplicatesToSpecialFolder`, `DeleteDuplicate` and `GetDuplicatesFound` forward to processor methods that are missing or modelled there; they are not modelled again.
- The commented-out `MakeFilesAndDirectoriesDictionary` of `DuplicatesProcessor` is never called and is not modelled.
- The `BlobInfo` constructor over `IEnumerable<Byte>` is taken to copy its argument; the digest is a `seq<bv8>` in both constructors.
- `DirectoryWithDuplicates.ToString` is the directory's name, as `FsEntity.ToString` is.
- Exceptions thrown part-way through a move or a deletion leave state the source never restores; the model states the result only.
- ProcessorMove.MoveFiles: on failure it states when and with which exception, not the partial state the moves before the failing one leave.
- ProcessorMove.MoveDuplicatesToSpecialFolder: on failure it does not state the partial state, as MoveFiles does not.
- ProcessorMove.MoveFiles: the file system is a fixed function with no state, so a duplicate listed twice in `duplicatesToMove` is moved a second time whenever the first move succeeded: the second move is recorded and the loop then throws ArgumentException (the file is already a key of the result). In the source the second `MoveFile` finds the file gone, its exception is caught at `DuplicatesProcessor.cs` lines 146-154, and the duplicate is skipped.
- ProcessorMove.MoveDuplicatesToSpecialFolder: moves through MoveFiles, so a duplicate listed twice is moved twice and the call throws ArgumentException where the source skips the second move.
- Deduplicator.OrdinaryDumpDeduplicator.GetDataLocation: takes the directory as a node whose path is cached, and states the new location's path as that cached path.
- Deduplicator.OrdinaryDumpDeduplicator.DoInspection: uses the corrected hashing (see Findings), so a file that cannot be hashed becomes Unreadable.
- Processing.SetDuplicateSortToFileInfo: uses the corrected ancestor test `IsFileFromDirectory` (see Findings) where the source calls the as-written one. As written, every file except those directly inside an "isolated duplicates" directory passes that test, since `GetRelativePath` gives any other file a path that climbs out with `..\` or is absolute; so almost every original, wherever it lies (parent, sibling, cousin or unrelated directory), would be tagged IsolatedDuplicate, and a duplicate directly inside the folder would be tagged InOriginalLocation. A `GetRelativePath` failure inside the test is not modelled either.
- Processing.ClassifyDuplicatesFound: tags through SetDuplicateSortToFileInfo and inherits its corrected ancestor test (see Findings); the tags it states are the intended ones, not the as-written ones.
- Processing.GetDuplicatesFound: classifies through ClassifyDuplicatesFound and inherits its corrected ancestor test (see Findings).
- ProcessorActions.IsFileFromIsolatedDuplicatesDir: uses the corrected ancestor test `IsFileFromDirectory` (see Findings) where the source calls the as-written one. As written, it accepts every file except those directly inside the "isolated duplicates" directories, wherever the file lies, and refuses the files directly inside them. A `GetRelativePath` failure inside the test is not modelled either.
- ProcessorActions.DeletionCheck: uses IsFileFromIsolatedDuplicatesDir with the corrected ancestor test (see Findings). As written, the check accepts files anywhere outside the "isolated duplicates" directories, originals included, and throws its general exception for a duplicate directly inside one of them.
- ProcessorActions.CheckFilesToDelete: inherits the corrected ancestor test of DeletionCheck (see Findings).
- ProcessorActions.DeleteDuplicates: inherits the corrected ancestor test of DeletionCheck (see Findings), so which files it may delete is the intended set, not the as-written one.
- ProcessorActions.DeleteDuplicates: the file system is a fixed function with no state, so two distinct FileInfos of the same File are both deleted, recorded and returned, where in the source the second `DeleteFile` finds the file gone, the exception is swallowed and only the first FileInfo is returned.
- ProcessorMove.RecordMove: the new state keeps the status the file had before the move (CarryStateOver, see Findings); as written the new state is Removed.
- ProcessorMove.MoveFile: records through RecordMove, so a moved file keeps its status where the source gives it Removed (see Findings).
- ProcessorMove.MoveNext: records through RecordMove, so a moved file keeps its status where the source gives it Removed (see Findings).
- ProcessorMove.MoveFiles: records through RecordMove, so a moved file keeps its status where the source gives it Removed (see Findings).
- ProcessorMove.MoveDuplicatesToSpecialFolder: records through RecordMove, so a moved file keeps its status where the source gives it Removed (see Findings).
- Deduplicator.OrdinaryDumpDeduplicator.ComputeHashesOfFiles: uses the corrected hashing (see Findings): a file whose hashing fails becomes Unreadable with the Broken blob, and that Broken blob is not registered, where the source registers it through `ComputeAndSaveBlobInfo`; ComputeHashesOfFilesAsWritten models the source's behaviour.
- Deduplicator.OrdinaryDumpDeduplicator.AttributeAndHash: hashes through ComputeHashesOfFiles and so uses the corrected hashing (see Findings).
- Deduplicator.OrdinaryDumpDeduplicator.InspectFiles: hashes through AttributeAndHash and so uses the corrected hashing (see Findings).
- Deduplicator.OrdinaryDumpDeduplicator.RecordScan: hashes through InspectFiles and so uses the corrected hashing (see Findings).
- Duplicates.SameContentFilesInfo.DuplicatesDataSize: the product is an unbounded integer; the source's `Int64` multiplication could overflow and its counter is an `Int32`, neither of which is modelled.
- Duplicates.SizeMetrics: the sizes are unbounded integers; `Int64` overflow of `Size * Count` and `Size * (Count - 1)` is not modelled.
- FsEntities.Combine: the `ArgumentException` that `Path.Combine` throws for characters invalid in a path is not modelled; names are taken to be valid path text.

## Findings

| source | as written | input that shows it | evidently intended | confidence | as-written member | corrected member |
|---|---|---|---|---|---|---|
| OrdinaryDumpDeduplicator/DataController/DataControllerSimple.cs:378-379 | a file is "from" the directory when the relative path is longer than the file name plus one | a file directly inside the directory (relative path is its name) is rejected; every file outside the directory (relative path `..\` followed by at least its name, or an absolute path on another drive) is accepted, the parent's, a sibling's, a cousin's or an unrelated directory's alike | the file lies in the directory or below it | not executed | DataController.SiblingFileIsFromDirectoryAsWritten | DataController.DataControllerSimple.IsFileFromDirectory |
| OrdinaryDumpDeduplicator/DuplicatesProcessor.cs:166-169 | the new state of a moved file copies the old state's status after that status was set to Removed | any successful move: the new state is Removed | the new state keeps the status the file had before the move | not executed | ProcessorMove.MovedFileLosesItsStatus | ProcessorMove.CarryStateOver |
| OrdinaryDumpDeduplicator/OrdinaryDumpDeduplicator.cs:92-101 | the catch that records Unreadable wraps `ComputeAndSaveBlobInfo`, which never throws | a file whose hashing throws: it is recorded as New with the Broken blob | such a file is recorded as Unreadable with the Broken blob | not executed | Deduplicator.UnreadableNeverRecorded | Deduplicator.HashedState |
| Common/FsEntity.cs:70-72 | `Equals` compares parents by calling `Equals` on the receiver's parent, which is null for a root | a root directory compared with a same-named entity one level down throws NullReferenceException | false: the entities differ | not executed | FsEntities.EqualsThrowsOnRootAgainstNested | FsEntities.StructuralEquals |
