# Sefaria mobile export: a Dafny model

This project models the logic of Sefaria's mobile content exporter and download
server (`JsonExporterForIOS.py`, `DownloadServer.py`). It covers the parts that
remain once the Sefaria library, the filesystem and HTTP are abstracted away:

- **Bundler** (`Bundler.dfy`):
  - the split-archive builder, which packs per-book zip archives into numbered, size-capped parts;
  - the two fixed-size batchers `split_list` and `iter_chunks`, including the 25-path purge batches;
  - the count-threshold eviction rule of `clear_old_bundles`.
- **Exporter** (`Exporter.dfy`): the section exporter of `IndexExporter`.
  - It looks up text arrays, strips markup while keeping the shape, and pads to an index.
  - It builds the anchor dictionary of links.
  - It aligns each version's segments, and the section's links, at the section's offset with `None` gaps.
  - It chooses the version key of a merged chunk by the first maximal priority.
  - The same file covers export paths and the version annotation of index documents.
- **Toc** (`Toc.dfy`): the table-of-contents tree.
  - Cleaning drops group and unknown nodes.
  - The category walk of `get_indexes_in_category` is modelled, including its error when nothing matches.
  - Packages resolve to their books and summed archive sizes.
  - New books are detected since the last recorded snapshot.
- **SyncState** (`SyncState.dfy`): change detection and the recorded snapshot of export times (`last_updated.json`).
  - `has_updated` checks its four queries over history events dated strictly after the recorded time.
  - `updated_books_list` is modelled.
  - `write_last_updated` covers both the full rewrite and the overlay.
  - The success-set bookkeeping of `export_texts` and `export_updated` is modelled.
- **DownloadServer** (`DownloadServer.dfy`):
  - the order-independent bundle name: sorted, `|`-joined, hashed, `.zip`;
  - request validation, filtering to archives on disk, and reuse of an existing bundle in `create_zip_bundle`.

Shared pieces live in **Results** (`Results.dfy`): `Option`, `Result` and the error cases the source raises.

The following are parameters of the model rather than computed:

- the hash functions (MD5 for version hashes, SHA-1 for bundle names), as uninterpreted functions;
- the export directory, as a map from file name to size or modification time;
- the history log, as a sequence of events;
- the Mongo `$regex` match, as a matching function;
- the markup stripper, the anchors of a section's links, and the section offset;
- the outcome of exporting one book, as a success predicate.

## Model

| member | source | states |
|---|---|---|
| Bundler.BuildSplitArchive | JsonExporterForIOS.py:742-769 | Parts are named `1.zip, 2.zip, …` consecutively. Concatenated, they hold exactly the present archives in input order, so missing ones are skipped. The result is empty only for empty input. Every part but the last is non-empty and over the cap. Before each part's last write its running size was within the cap. No part is opened that nothing needs: the last part is empty only when the last book is missing. When the last book is missing and the last part is non-empty, that part stayed open, so it is within the cap. |
| Bundler.PartName | JsonExporterForIOS.py:751-753 | A part's name ends in `.zip`, and the part number reads back from what comes before it, so distinct parts get distinct names. |
| Bundler.NatToStringRoundTrip | JsonExporterForIOS.py:753 | The decimal rendering of a part number reads back as that number. |
| Bundler.OversizedArchiveEndsItsPart | JsonExporterForIOS.py:762-765 | An archive larger than the cap is still written, and it is always the last member of its part. |
| Bundler.IterChunks | JsonExporterForIOS.py:1044-1048 | An empty list gives no batches and any other list at least one. The number of batches is the least that holds the list at `size` items each: `(count-1)*size < len <= count*size`. |
| Bundler.IterChunksCover | JsonExporterForIOS.py:1044-1048 | `iter_chunks` batches concatenate back to the list. Every batch is non-empty and at most the chunk size; every batch but the last has exactly that size. |
| Bundler.PurgeBatches | JsonExporterForIOS.py:1072 | The cache purge's batches cover the file list in order, each with 1 to 25 paths. |
| Bundler.SplitList | JsonExporterForIOS.py:733-739 | Every slice is non-empty, since an empty remainder is dropped. With a negative size `int(len/size)` is at most 0, so there is no full slice. The result is then the items past the largest multiple of `-size` in the length, or nothing when the length is such a multiple. |
| Bundler.SplitListShape | JsonExporterForIOS.py:733-739 | For a positive size, `split_list` slices concatenate back to the list, with the same batch-size bounds. |
| Bundler.SplitListIsIterChunks | JsonExporterForIOS.py:733-739 | For a positive size, `split_list` and `iter_chunks` produce the same batches. |
| Bundler.BatchesUnique | JsonExporterForIOS.py:733-739 | A list has only one batching whose batches are all full except a non-empty last one. |
| Bundler.ClearOldBundles | JsonExporterForIOS.py:773-794 | Package entries always survive. Below `max_files` bundles nothing is removed. Otherwise every bundle is removed. The pass fails exactly when there are at least `max_files` bundles and some bundle is a plain file, because `rmtree` raises on it. |
| Bundler.ForcedEvictionRemovesAllBundles | JsonExporterForIOS.py:786-794 | With a threshold of 0 and only directories, no non-package bundle remains. |
| Bundler.ClearOldBundlesIdempotent | JsonExporterForIOS.py:786-794 | A second pass over what a completed pass left removes nothing. |
| Exporter.PyIndex | JsonExporterForIOS.py:436-438 | A Python index into a list of length n is valid exactly when `-n <= i < n`; a negative index counts from the end. |
| Exporter.GetTextArrayChapter | JsonExporterForIOS.py:433-438 | A 1-based chapter within range gives that chapter. One past the end gives `[]`, because the IndexError is caught. |
| Exporter.GetTextArray | JsonExporterForIOS.py:433-441 | No sections gives the whole array. A first section past the end of the array, or too far below its start for a negative index, gives `[]` at any depth, because the IndexError is caught. Section 0 of a one-level address is Python index -1, so it reads the last element. |
| Exporter.StripItagsRecursive | JsonExporterForIOS.py:444-448 | Stripping keeps the nesting shape and applies the stripper to a bare string. |
| Exporter.StripItagsStrings | JsonExporterForIOS.py:444-448 | The strings of the stripped array are the stripper applied to each original string, in order. |
| Exporter.PadArrayToIndex | JsonExporterForIOS.py:458-461 | Given `len <= index-1`, the result has length exactly `index-1`, keeps the original prefix and is `None` afterwards. |
| Exporter.AlignSegments | JsonExporterForIOS.py:514-526 | Position k is `None` below the offset and otherwise the k-offset-th present item. No present item falls beyond the result, and the last entry is an item. |
| Exporter.AlignedText | JsonExporterForIOS.py:521-526 | An empty version gives `[]`. Otherwise the aligned text has length offset+L, `None` below the offset and segment x at offset+x. |
| Exporter.SimplifyLink | JsonExporterForIOS.py:394-406 | The link keeps both refs. It has a category exactly when that category is "Quoting Commentary" or "Targum", and that category is copied. The English flag is kept. |
| Exporter.AddToRange | JsonExporterForIOS.py:475-476 | Appending to a key range adds the link under exactly the keys in the range and changes nothing else. |
| Exporter.AnchorRefDict | JsonExporterForIOS.py:464-477 | No key holds more simplified links than the section has links: a link is added at most once under each key. |
| Exporter.AnchorRefDictSpec | JsonExporterForIOS.py:464-477 | The list under each key holds, in link order, the simplified links that are segment-level, have sections and cover that key. |
| Exporter.LinkSpanExtent | JsonExporterForIOS.py:464-477 | A segment-level link with sections is filed in the anchor dict under every segment of its span. The span runs from its last start section to its last end section when both addresses start in the same section, and to the section length otherwise. |
| Exporter.UncoveredSegmentHasNoLinks | JsonExporterForIOS.py:464-477 | A segment has no links in the anchor dict exactly when no link's span covers it. |
| Exporter.AlignedLinkCategories | JsonExporterForIOS.py:400-401 | Every link in the section's links array carries either no category or "Quoting Commentary" or "Targum", whatever categories the links had. |
| Exporter.AlignedLinks | JsonExporterForIOS.py:514-519 | The links array holds at index k the links covering relative segment k-offset+1, or `None`. It reaches every segment with links and is at most offset plus the section length long. |
| Exporter.KeyedMapLastWins | JsonExporterForIOS.py:529-533 | In a dict filled in order, a key not repeated later maps to its own value. |
| Exporter.KeyedMapSize | JsonExporterForIOS.py:529-533 | Such a dict has at most as many entries as assignments, and exactly as many when the keys are distinct. |
| Exporter.VersionsByTitle | JsonExporterForIOS.py:542 | The title dictionary has exactly the versions' titles as keys, and each maps to a version with that title. |
| Exporter.FirstMaxIndex | JsonExporterForIOS.py:543 | The chosen index holds a maximal key, and every earlier key is strictly smaller, as with Python's `max`. |
| Exporter.GetVersionDetails | JsonExporterForIOS.py:537-544 | An unmerged chunk reports its version's title and language. A merged chunk with no sources fails as `max` of nothing. A source missing from the title dictionary fails with a KeyError. Otherwise the result is a source title with the chunk's language. |
| Exporter.MergedAttributionIsMax | JsonExporterForIOS.py:543-544 | A merged chunk reports a source in the title dictionary, and no source of the chunk has a higher priority. |
| Exporter.MergedAttributionIsFirst | JsonExporterForIOS.py:543-544 | Every source listed before the reported one has a strictly lower priority, so ties go to the first source, as with Python's `max`. |
| Exporter.KeyedByVersion | JsonExporterForIOS.py:529-533 | Keying succeeds exactly when every chunk's details resolve. The result is then the in-order dict from version keys to aligned arrays. |
| Exporter.SectionData | JsonExporterForIOS.py:483-534 | No chunks fails as `max` of nothing. Success happens exactly when there are chunks and all resolve. The metadata's version list serializes all versions. The texts are keyed by exactly the chunks' version keys, without filtering empty versions. |
| Exporter.ChunkKeysAt | JsonExporterForIOS.py:529-532 | The i-th key handed to the dict is chunk i's version key. |
| Exporter.SectionDataOnePerChunk | JsonExporterForIOS.py:529-533 | There are at most as many version arrays as chunks, and exactly as many when the chunks' keys are distinct. |
| Exporter.SectionDataAlignsText | JsonExporterForIOS.py:509-526 | A chunk's text array is `[]` when it has nothing in the section. Otherwise it is offset `None`s then its segments, of length offset+L ≤ offset + section length. With offset 0 that is at most the section length. |
| Exporter.SectionDataSegmentBound | JsonExporterForIOS.py:509-527 | Every text array of the output, and the links array, is at most offset plus the section length long, so at most the section length when the offset is 0. |
| Exporter.SectionDataAlignsLinks | JsonExporterForIOS.py:509-527 | The metadata's links array holds at index k the links covering relative segment k-offset+1, with `None` gaps. |
| Exporter.VersionHash | JsonExporterForIOS.py:385-387 | The version hash is exactly the first eight characters of the MD5 hex digest, or the whole digest if it is shorter. |
| Exporter.MakePath | JsonExporterForIOS.py:390-391 | An export path starts with the export directory, `/`, the ref and `.`, and ends with `.<lang>.json`. What lies between is exactly the version hash. |
| Exporter.MakePathInjective | JsonExporterForIOS.py:385-391 | For one ref, two paths are equal exactly when the short hashes and the languages are equal, given that the digests contain no dot. |
| Exporter.ShortHashSharesPath | JsonExporterForIOS.py:385-391 | Two version titles whose digests agree in the first 8 characters get the same path. |
| Exporter.RemovedKeysAreTwelve | JsonExporterForIOS.py:569-573 | The stripped keys are the six version keys and their `he…` forms. |
| Exporter.DropEmptyStrings | JsonExporterForIOS.py:577-581 | A version keeps exactly its keys whose value is not the empty string, with their values. |
| Exporter.AnnotateVersionsOnIndex | JsonExporterForIOS.py:568-581 | The index keeps exactly its fields outside the twelve removed keys and `versions`, unchanged. It gets one version entry per listed version, with empty strings dropped. |
| Exporter.AnnotateIdempotent | JsonExporterForIOS.py:568-581 | Annotating an annotated index again changes nothing. |
| Toc.CleanNode | JsonExporterForIOS.py:848-861 | A category or title node is kept as one node; a group or unknown node is dropped. A title comes back unchanged. A category keeps its name and has no more children than before; Toc.CleanKeepsSkeleton says which children stay. |
| Toc.CleanKeepsCategory | JsonExporterForIOS.py:848-861 | A cleaned category keeps its name. Its books are the same, in the same order, and everything below it is a category or a title. |
| Toc.Clean | JsonExporterForIOS.py:843-862 | A cleaned tree has only category and title nodes at every depth and is no longer than the input. |
| Toc.CleanKeepsSkeleton | JsonExporterForIOS.py:843-862 | Cleaning removes only group and unknown nodes. Every category, including one that cleaning leaves empty, and every title stays in place. The depth-first stream of category entries, titles and category exits is unchanged. |
| Toc.CleanKeepsLeaves | JsonExporterForIOS.py:843-862 | Cleaning keeps every book title in depth-first order. |
| Toc.CleanFixesHandled | JsonExporterForIOS.py:843-862 | A tree that is already clean is left unchanged. |
| Toc.CleanIdempotent | JsonExporterForIOS.py:843-862 | Cleaning twice is cleaning once. |
| Toc.GetIndexes | JsonExporterForIOS.py:584-597 | An empty level raises InputError. Every title listed is a book of the tree below that level. |
| Toc.FullLibraryListing | JsonExporterForIOS.py:584-597 | On a cleaned tree the empty path lists every book title in depth-first order. An empty tree raises InputError. |
| Toc.PathListing | JsonExporterForIOS.py:587-597 | A path `c::rest` descends only into categories named `c` and ignores titles at that level. It raises when no category matches. |
| Toc.EmptyCategoryMatches | JsonExporterForIOS.py:588-590 | A matching category with no contents contributes nothing and does not raise. |
| Toc.JoinSplitPath | JsonExporterForIOS.py:670 | Joining the `/`-split of a category path with `/` gives the path back. |
| Toc.SplitJoinPath | JsonExporterForIOS.py:670 | Splitting the `/`-join of slash-free names gives the names back. |
| Toc.MissingCategoryContributesNothing | JsonExporterForIOS.py:664-685 | A category path that raises, wherever it stands in a package's list, leaves the package's books and size as if it were not listed. |
| Toc.PackageSize | JsonExporterForIOS.py:678-680 | A one-book list weighs its archive's size, or 0 when the archive is absent. A list none of whose books has an archive has size 0. Each present archive's size is at most the package's size. With Toc.PackageSizeAppend this fixes the size as the sum over the present archives. |
| Toc.PackageSizeAppend | JsonExporterForIOS.py:678-680 | The size sum over two book lists is the sum of their sums. |
| Toc.PackageSizeCountsEachBook | JsonExporterForIOS.py:678-680 | A book anywhere in the list adds exactly its archive's size to the package, and nothing when its archive is absent. |
| Toc.ResolvePackage | JsonExporterForIOS.py:664-685 | A package lists its books exactly when it names categories. Its size is the size sum over its books. |
| Toc.WholeLibrarySize | JsonExporterForIOS.py:673-680 | The package without categories is sized over every book of the tree. |
| Toc.BookSetIsLeaves | JsonExporterForIOS.py:886-897 | The collected book set is exactly the set of leaf titles. |
| Toc.NewBooksSinceLastUpdate | JsonExporterForIOS.py:881-904 | A book is new exactly when it is a leaf title of the cleaned tree and not recorded in the snapshot. |
| SyncState.CountPositive | JsonExporterForIOS.py:294-296 | A query's count is positive exactly when some event dated strictly after the recorded time matches the query. |
| SyncState.HasUpdated | JsonExporterForIOS.py:289-318 | A book counts as updated only when its reference parses and some history event is dated strictly after the recorded time. |
| SyncState.HasUpdatedIff | JsonExporterForIOS.py:289-318 | A book has updated exactly when its reference parses and some event dated strictly after the recorded time matches one of the four queries. The four queries are ref, old link refs, new link refs, and the index title. |
| SyncState.HasUpdatedIgnoresOlderEvents | JsonExporterForIOS.py:296 | Events dated at or before the recorded time never change the answer. |
| SyncState.HasUpdatedAntitone | JsonExporterForIOS.py:296 | A book updated after some time has also updated after any earlier time. |
| SyncState.UpdatedBooks | JsonExporterForIOS.py:277-286 | With no snapshot there is no list. Otherwise a recorded book is listed exactly when it has updated since its recorded time. |
| SyncState.ZipStem | JsonExporterForIOS.py:698-699 | A recognised stem is non-empty and slash-free, and the name ends with that stem followed by `.zip`. |
| SyncState.ZipStemRoundTrip | JsonExporterForIOS.py:699 | The archive-name pattern recovers the title from `<title>.zip` for a slash-free title. |
| SyncState.TitlesOnDisk | JsonExporterForIOS.py:697-699 | Listing fails exactly when a `…zip` name does not match `([^/]+)\.zip$`. Otherwise it yields the stems of the archive names. |
| SyncState.FreshTimes | JsonExporterForIOS.py:694-708 | Timestamps are taken from the titles' archives. Stamping fails when an archive is missing. |
| SyncState.Stamp | JsonExporterForIOS.py:701-719 | The snapshot has the current schema version and an empty comment, and each stamped title has its archive's time. With `update`, the other titles keep their previous times and a missing previous file counts as empty. Without `update`, only the stamped titles remain. |
| SyncState.WriteLastUpdated | JsonExporterForIOS.py:689-719 | A non-empty title list stamps those titles. An empty list stamps every archive found in the export directory. |
| SyncState.OverlayKeepsUntouched | JsonExporterForIOS.py:710-719 | With `update` and a non-empty list, the titles map is the previous map overlaid with the new entries; untouched titles keep their timestamps. |
| SyncState.FilterAppend | JsonExporterForIOS.py:203-213 | Filtering distributes over concatenation. |
| SyncState.ExportTextsTitles | JsonExporterForIOS.py:197-213 | Iterating in reverse and removing failed books leaves, in order, exactly the books skipped as existing or exported successfully. |
| SyncState.Resolved | JsonExporterForIOS.py:255-262 | The resolved list holds exactly the indexes of requested names that exist. |
| SyncState.ExportUpdatedTitles | JsonExporterForIOS.py:262-266 | Removing each failed book's title leaves, in order, exactly the resolved books that exported. |
| SyncState.ExportUpdatedSnapshot | JsonExporterForIOS.py:262-274 | As written: when at least one book exported, the step agrees with the corrected step. The two differ only when no book exported (SyncState.AllFailedRestampsEveryArchive). |
| SyncState.ExportUpdatedSnapshotIntended | JsonExporterForIOS.py:262-274 | With an empty list meaning "no book exported": nothing exported leaves the snapshot unchanged apart from the schema version and comment. The step succeeds exactly when every listed book has an archive. Listed books get their archive's time. Every other book keeps its membership and timestamp. |
| SyncState.FailedBooksKeepTimestamps | JsonExporterForIOS.py:256-274 | A book that failed to export keeps its previous timestamp, or stays unrecorded. An exported book gets its archive's time. |
| SyncState.AllFailedRestampsEveryArchive | JsonExporterForIOS.py:262-274 | As written, for any inputs: when no resolved book exports, the list passed on is empty. Every archive in the export directory is then stamped with its current time, failed books included. |
| SyncState.AllFailedRefreshesFailedBook | JsonExporterForIOS.py:697-699 | As written, a single failed book yields an empty list. The snapshot then re-stamps that book's rewritten archive, from time 1 to time 5. |
| DownloadServer.StrLeTotal | DownloadServer.py:39 | Python's string order is total. |
| DownloadServer.StrLeAntisym | DownloadServer.py:39 | Python's string order is antisymmetric. |
| DownloadServer.StrLeTrans | DownloadServer.py:39 | Python's string order is transitive. |
| DownloadServer.SortStrings | DownloadServer.py:39 | `sorted` returns a sorted permutation of its input. |
| DownloadServer.SortedUnique | DownloadServer.py:39 | There is only one sorted arrangement of a collection of names. |
| DownloadServer.SortIgnoresOrder | DownloadServer.py:39 | Sorting two permutations of the same names gives the same list. |
| DownloadServer.BundleFilename | DownloadServer.py:38-40 | A bundle name is the SHA-1 of the `|`-join of the sorted archive names, followed by `.zip`. |
| DownloadServer.BundleFilenamePermutation | DownloadServer.py:38-40 | Any permutation of the archive list gives the same bundle name. |
| DownloadServer.RequestedArchives | DownloadServer.py:20-21 | Every requested archive exists on disk, and every requested book whose `.zip` exists contributes its archive. There are no more archives than books. |
| DownloadServer.RequestedCount | DownloadServer.py:20-21 | Each existing archive appears as often as its book was requested; a missing one never appears. |
| DownloadServer.RequestedAreArchives | DownloadServer.py:20 | Every requested archive is `<book>.zip` for some requested book. |
| DownloadServer.RequestedPermutation | DownloadServer.py:20-21 | Permuting the books permutes the requested archives. |
| DownloadServer.CreateZipBundle | DownloadServer.py:14-35 | A request without JSON or without a non-empty book list is a 400 and nothing changes. If no requested archive exists, the result is "requested books not found" and nothing changes. Otherwise the response names the bundle of the requested archives. That bundle holds the archives unless it already existed, and every existing bundle is unchanged. |
| DownloadServer.PermutedRequestSameBundle | DownloadServer.py:20-35 | Two requests for permutations of the same books get the same response and leave the same bundle names. |
| DownloadServer.MissingBooksDoNotChangeBundle | DownloadServer.py:20-26 | Adding books that have no archive on disk does not change the response or the bundles. |
| DownloadServer.CreateZipBundleIdempotent | DownloadServer.py:27-35 | Repeating a request gives the same response and builds nothing new. |

## Left out

- Sefaria library calls are inputs, not modelled:
  - references, their regexes, link lookup and section offsets (`model.Ref`, `get_links`, `_get_offset`);
  - versions and history (`TextChunk`, `HistorySet`);
  - the table of contents (`library.get_toc`), and the markup stripper `TextChunk.strip_itags`.
- Filesystem and archive I/O is reduced to what it decides:
  - `zipfile` and DEFLATE, `rmtree`, `os.chdir`, `os.stat`, and the JSON writing of `write_doc` are not modelled;
  - the export directory is a map from name to size or modification time;
  - the bundle store is a map from name to its archives.
- MD5 and SHA-1 are uninterpreted functions.
- Flask routing, the `/update` endpoint, Slack alerts, and the calendar, author and category exports are not modelled. Nor are the Cloudflare purge's HTTP calls and thread pool; only its 25-path batching is modelled.
- The `IndexExporter` constructor, which chooses chunks and versions, is not modelled. Chunks and versions are inputs.
- The orchestration of `export_all` and of the steps of `export_updated` is not modelled. Only the bookkeeping of which titles are recorded is.
- Exporter.GetElement: Sefaria's `JaggedArray.get_element` is modelled as successive Python indexing. Negative indexes wrap, and indexing a string gives a one-character string.
- Exporter.VersionsByTitle: a `priority` attribute that is present but set to `None` is not modelled; a missing priority counts as -1.
- Toc.CleanNode: a group node is modelled as carrying no title. The source drops any `isGroup` or `isCollection` node before looking at its title.
- SyncState.ExportTextsTitles: an index record is reduced to an identity. Its title only decides whether its archive is on disk, which is a set of records here.
- SyncState.Stamp: timestamps are integers, not ISO date strings, and the order of the new entries in the JSON file is not modelled.
- SyncState.UpdatedBooks: the result is a set. The source's list follows the snapshot file's key order.
- SyncState.BaseSnapshot: a snapshot file that exists but is corrupt is not modelled. Only a missing file, the IOError case, falls back to an empty snapshot.
- SyncState.HasUpdated: an unparseable title (InputError) is a `None` pattern list. The Mongo regex match is a parameter.
- DownloadServer.CreateZipBundle: bundles are built under `SEFARIA_EXPORT_PATH/bundles`, while `clear_old_bundles` evicts from `EXPORT_PATH/bundles`. The two stores are separate inputs and their relation is not modelled.
- DownloadServer.CreateZipBundle: the request body is typed as an optional list of strings. Other JSON shapes are not modelled:
  - a string `books` is iterated character by character, so each character is looked up as a book;
  - a non-empty JSON list as the body makes `request.json.get` raise AttributeError, which Flask answers with a 500;
  - an object as `books` is iterated over its keys, and a number makes the iteration raise TypeError, again a 500.
- Exporter.SectionDataAlignsText: the library's own segment count for a section (`all_segment_refs`) is not modelled; the section length is the longest text array. Arrays are bounded by the offset plus that length (Exporter.SectionDataSegmentBound), so by the section length only when `_get_offset` is 0. With a positive offset the padding makes every non-empty array longer by the offset, as the code intends for running segment numbers.
- Bundler.IterChunks: a chunk size of zero or less never ends on a non-empty list, so it is a precondition.
- Bundler.SplitList: a size of 0 makes `int(len(l) / size)` raise ZeroDivisionError. That error is not modelled, so a non-zero size is a precondition.
- The model follows the code as written in three places:
  - `section_data` keeps one text array per chunk, including chunks with nothing in the section;
  - an oversized archive is appended to the open part, which is then closed, rather than getting a part of its own;
  - the metadata's version list names every version of the index.

## Findings

| source | as written | input that shows it | evidently intended | confidence | as-written member | corrected member |
|---|---|---|---|---|---|---|
| JsonExporterForIOS.py:697-699 | `write_last_updated` treats an empty title list as "every archive on disk". `export_updated` passes the list of books that exported, which is empty when every updated book failed. `zip_last_text` rewrites a failed book's archive anyway, so that book is re-stamped with a fresh time and the edits that made it fail are never retried. | The snapshot records Genesis at 1. Genesis's export fails, and its archive is rewritten at 5. The list passed is `[]`, and the new snapshot records Genesis at 5. | An empty list means no book exported, so the snapshot keeps its timestamps. | not executed | SyncState.AllFailedRestampsEveryArchive | SyncState.ExportUpdatedSnapshotIntended |
