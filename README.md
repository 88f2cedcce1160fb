# Block store and zip entry selection, modelled in Dafny

This project models two small pieces of sequential logic from the
anytype-heart middleware (Go):

- `inMemBlockStore`, the in-memory content-addressed block store that the
  file-sync engine's tests wire in as the local block store
  (`core/filestorage/filesync/filesync_test.go`). It is a table from the key
  string of a content identifier (CID) to a block. `Add` and `Delete` update
  the table in place. `Get`, `GetMany`, `ExistsCids` and `NotExistsBlocks`
  read it. Module `BlockStore`, file `blockstore.dfy`: a class
  `InMemBlockStore` with a `data: map<string, Block>` field, and the
  functions on tables that specify its methods.
- `Zip.GetFileReaders`, which selects the files of a zip archive for import
  (`core/block/import/source/zip.go`). It drops entries under `__MACOSX/`
  and entries whose extension is not supported. It cleans each remaining
  name and strips a leading `zipName/`, where `zipName` is `importPath`
  minus its extension: the whole path, not its base name. It files each
  entry that opens under that short path. Module `ZipSource`,
  file `zip_source.dfy`: a method with the source's loop and `continue`
  guards, specified by the function `Selected`.

Module `Wrappers` (file `wrappers.dfy`) holds `Option` and `Result`. A Go
`error` that is always nil is an `Option` that is always `None`.

Modelling decisions:

- A CID is the opaque `Cid(hash)`. `KeyString` returns the hash, so distinct
  CIDs have distinct keys. A block is `Block(cid, rawData)`: it carries its
  own CID. `InMemBlockStore.Valid()` says every block is filed under its own
  CID's key. `Add` and `Delete` preserve it.
- Go's `Get` treats a stored nil block as missing. A nil block can never be
  stored, because `Add` calls `b.Cid()` first, which panics on nil. So the
  model's only not-found case is an absent key.
- `GetMany` fills a channel buffered to `len(ks)` and closes it. The model
  returns the sequence of blocks sent. `|result| <= |ks|` says no send can
  block.
- `Get`, `GetMany`, `ExistsCids` and `NotExistsBlocks` have no `modifies`
  clause, so Dafny guarantees they leave `data` unchanged.
- Opening the archive at `importPath` (`zip.OpenReader`) is a parameter. It
  is a `Result` holding either the entries or the open error. Each entry is
  its name plus whether `f.Open` succeeds. The reader opened on entry `i` is
  `Reader(i)`.
- `isSupportedExtension` and `filepath.Clean` are function parameters,
  because their bodies are not part of this model. Their inputs are the
  same as the source's.
- A Go string is a sequence of bytes, and zip entry names need not be
  UTF-8. The model reads a name as a Dafny `string` with one `char` per
  byte. Nothing observable is lost, because the path helpers only compare
  characters and look for `.` and `/`.
- `filepath.Ext` is written out. It scans back from the end of the path and
  stops at the first `/`. It returns the suffix from the first `.` it meets,
  or `""` if it meets none. `strings.HasPrefix`, `TrimPrefix` and
  `TrimSuffix` are written out too.

## Model

| member | source | states |
|---|---|---|
| `BlockStore.InMemBlockStore.constructor` | core/filestorage/filesync/filesync_test.go:74 | The fixture's store starts empty and keyed. |
| `BlockStore.InMemBlockStore.Get` | core/filestorage/filesync/filesync_test.go:122-129 | A present key yields exactly the stored block, and an absent key yields `ErrCIDNotFound`. In a keyed store the block returned carries the requested CID. |
| `BlockStore.InMemBlockStore.GetMany` | core/filestorage/filesync/filesync_test.go:131-140 | Yields `Fetched(data, ks)`: the stored blocks of the present keys, in input order, with missing keys skipped. At most `len(ks)` blocks are yielded. In a keyed store the CIDs of the yielded blocks are exactly `ExistsIn(data, ks)`. |
| `BlockStore.InMemBlockStore.Add` | core/filestorage/filesync/filesync_test.go:142-150 | The new table is the old one with each block of `bs` stored in turn under its own key. The store stays keyed, and the error is always nil. |
| `BlockStore.InMemBlockStore.Delete` | core/filestorage/filesync/filesync_test.go:152-157 | Removes exactly the key of `c`, which is then absent. Every other key keeps its presence and its block. The error is nil even when `c` was already absent. |
| `BlockStore.InMemBlockStore.ExistsCids` | core/filestorage/filesync/filesync_test.go:159-166 | Returns `ExistsIn(data, ks)`, the present elements of `ks` in input order, and never errors. |
| `BlockStore.InMemBlockStore.NotExistsBlocks` | core/filestorage/filesync/filesync_test.go:168-175 | Returns `MissingFrom(data, bs)`, the blocks of `bs` whose CID is absent, in input order, and never errors. |
| `BlockStore.KeyString` | core/filestorage/filesync/filesync_test.go:125 | `k.KeyString()`, used at lines 125, 147 and 155: the key determines the identifier, so distinct CIDs have distinct keys. |
| `BlockStore.Present` | core/filestorage/filesync/filesync_test.go:125 | The lookup `Get` makes, which `ExistsCids` and `NotExistsBlocks` test at lines 161 and 170: true if and only if the key of `c` is in the table. In a keyed table, the block stored there carries `c`. |
| `BlockStore.CidsOf` | core/filestorage/filesync/filesync_test.go:170 | The CIDs of the blocks, one per block, position by position. |
| `BlockStore.ExistsIn` | core/filestorage/filesync/filesync_test.go:159-166 | The filtered sequence is never longer than the input. |
| `BlockStore.MissingFrom` | core/filestorage/filesync/filesync_test.go:168-175 | The filtered sequence is never longer than the input. |
| `BlockStore.Fetched` | core/filestorage/filesync/filesync_test.go:131-140 | At most one block per requested key. |
| `BlockStore.ExistsInAppend` | core/filestorage/filesync/filesync_test.go:160-164 | Filtering a concatenation is the concatenation of the filtered parts, so input order is kept. |
| `BlockStore.ExistsInCount` | core/filestorage/filesync/filesync_test.go:160-164 | A present CID occurs in the result as often as in `ks`, with duplicates kept. An absent CID never occurs. A CID is in the result if and only if it is in `ks` and present. |
| `BlockStore.MissingFromAppend` | core/filestorage/filesync/filesync_test.go:169-173 | Filtering a concatenation is the concatenation of the filtered parts, so input order is kept. |
| `BlockStore.MissingFromCount` | core/filestorage/filesync/filesync_test.go:169-173 | A block with an absent CID occurs as often as in `bs`. A block with a present CID never occurs. A block is in the result if and only if it is in `bs` and its CID is absent. |
| `BlockStore.ExistsMissingPartition` | core/filestorage/filesync/filesync_test.go:159-175 | For one store state, `ExistsIn` over the CIDs of `bs` and `MissingFrom` over `bs` are complements. Their lengths add up to `len(bs)`. Together they hold each CID as often as `bs` does. No CID reported missing is present. |
| `BlockStore.ExistsMissingMultiset` | core/filestorage/filesync/filesync_test.go:159-175 | The multiset half of the complement: present CIDs plus the CIDs of missing blocks give back the CIDs of `bs`. |
| `BlockStore.FetchedAppend` | core/filestorage/filesync/filesync_test.go:134-138 | Fetching a concatenation fetches each part in order. |
| `BlockStore.FetchedMatchesExists` | core/filestorage/filesync/filesync_test.go:131-140 | `GetMany` yields, position by position, the stored block of each key `ExistsCids` would report. |
| `BlockStore.FetchedCids` | core/filestorage/filesync/filesync_test.go:131-140 | In a keyed table, the fetched blocks carry exactly the CIDs `ExistsIn` reports. |
| `BlockStore.CidsOfAppend` | core/filestorage/filesync/filesync_test.go:170 | The CIDs of a concatenation are the concatenation of the CIDs. |
| `BlockStore.Inserted` | core/filestorage/filesync/filesync_test.go:145-148 | The table after the `Add` loop: every old key is still present, and every block of the batch has its key present. |
| `BlockStore.InsertedKeys` | core/filestorage/filesync/filesync_test.go:145-148 | After a batch, the keys are the old keys plus the keys of the batch's blocks. |
| `BlockStore.InsertedUntouched` | core/filestorage/filesync/filesync_test.go:145-148 | A key not in the batch keeps its presence and its block. |
| `BlockStore.InsertedLastWins` | core/filestorage/filesync/filesync_test.go:145-148 | A key in the batch holds the last block of the batch filed under it (last write wins). |
| `BlockStore.InsertedKeyed` | core/filestorage/filesync/filesync_test.go:145-148 | A batch keeps the table keyed, and every block of the batch is afterwards retrievable by its CID. |
| `ZipSource.HasPrefix` | core/block/import/source/zip.go:24 | When `s` starts with `prefix`, `s` is `prefix` followed by the rest of `s`. |
| `ZipSource.HasSuffix` | core/block/import/source/zip.go:22 | The test inside `TrimSuffix`: when `s` ends with `suffix`, `s` is its front part followed by `suffix`. |
| `ZipSource.AffixPointwise` | core/block/import/source/zip.go:22-24 | Both directions: `s` starts (ends) with `affix` if and only if `affix` is no longer than `s` and agrees with it character by character at the front (back). |
| `ZipSource.TrimPrefix` | core/block/import/source/zip.go:34 | With the prefix present, prefix + result is the input. Otherwise the input is returned unchanged. |
| `ZipSource.TrimSuffix` | core/block/import/source/zip.go:22 | With the suffix present, result + suffix is the input. Otherwise the input is returned unchanged. |
| `ZipSource.ExtStart` | core/block/import/source/zip.go:27 | The extension starts at or below the scan position, or is the length of the path when there is none. |
| `ZipSource.ExtStartSpec` | core/block/import/source/zip.go:27 | The backward scan stops at the last `.` of the final path element, or reports none when that element has no `.`. |
| `ZipSource.Ext` | core/block/import/source/zip.go:22-27 | `filepath.Ext` as used at lines 22 and 27: the result is a suffix of the path, and a non-empty result starts with `.`. |
| `ZipSource.ExtSpec` | core/block/import/source/zip.go:27 | `Ext(path)` is a suffix of `path`. It is empty exactly when the last element has no `.`. Otherwise it starts at the last `.` of the path, which lies in the last element. |
| `ZipSource.ZipName` | core/block/import/source/zip.go:22 | `zipName` is `importPath` minus its extension, the whole path and not its base name: `zipName` followed by `Ext(importPath)` is `importPath`. |
| `ZipSource.MacOsxEntry` | core/block/import/source/zip.go:24 | An entry is flagged if and only if its name starts with `__MACOSX/`, that is, it is `__MACOSX/` followed by the rest of the name. |
| `ZipSource.SupportedEntry` | core/block/import/source/zip.go:27-28 | The filter, given the expected extensions, decides the entry. If the last element of the name has no `.`, it receives the empty string. Otherwise it receives the name from that element's last `.` to the end. |
| `ZipSource.Accepted` | core/block/import/source/zip.go:24-39 | The chain of `continue` guards: an entry under `__MACOSX/`, one with an unsupported extension, or one that fails to open is each rejected on its own. An entry that passes all three is kept. |
| `ZipSource.ShortPath` | core/block/import/source/zip.go:32-34 | Cleans the entry's name. If the cleaned name starts with `zipName/`, `zipName/` followed by the result is the cleaned name. Otherwise the result is the cleaned name. |
| `ZipSource.Selected` | core/block/import/source/zip.go:21-41 | The map the loop builds over the entries. It has at most as many keys as the archive has entries. |
| `ZipSource.SelectedStep` | core/block/import/source/zip.go:23-41 | One more loop iteration: an accepted entry is filed under its short path, replacing any earlier reader there. Any other entry leaves the map unchanged. |
| `ZipSource.SelectedSound` | core/block/import/source/zip.go:23-41 | Every result key comes from an entry that is not under `__MACOSX/`, has a supported extension and opens. The key is that entry's cleaned name with a leading `zipName/` removed. |
| `ZipSource.LastWithPathExtend` | core/block/import/source/zip.go:40 | An entry that is last with its short path stays last when the next entry is skipped or has another short path. |
| `ZipSource.SelectedLastWins` | core/block/import/source/zip.go:40 | The reader kept under each key is that of the last accepted entry with that short path: no later accepted entry shares it (last write wins). |
| `ZipSource.SelectedCompleteAt` | core/block/import/source/zip.go:23-41 | An accepted entry's short path is a key, and the reader kept there is this entry's or a later one's. |
| `ZipSource.SelectedComplete` | core/block/import/source/zip.go:23-41 | Every accepted entry's short path is a key, even after skipped entries. The reader kept is that entry's or a later one's. |
| `ZipSource.GetFileReaders` | core/block/import/source/zip.go:16-43 | If the archive fails to open, returns that error and no map. Otherwise returns, with no error, exactly `Selected(entries, ...)` for `ZipName(importPath)`, which is `importPath` minus its extension (the whole path, not its base name), the expected extensions, the extension filter and the cleaner. |

## Left out

- The file-sync engine (`New`, `AddFile`, `RemoveFile`, `SyncStatus`, its queue and workers): its source is not part of this model. Only its tests are, and modelling it from them would be invention.
- `waitEmptyQueue`: a sleep-and-poll loop against a clock.
- The test fixture (gomock expectations, `app.App` registration, `badgerProvider` and its badger database, the temporary directory), and the store's `Init` and `Name`: dependency-injection and I/O glue.
- The store's `sync.Mutex`: the store is modelled sequentially. `ExistsCids` and `NotExistsBlocks` lock per key rather than per batch, which matters only under concurrency.
- The `ctx` parameters of the store's methods: the in-memory store never consults them.
- `fmt.Println` in `Add` and `log.Errorf` in `GetFileReaders`: printing only.
- Real zip reading (`zip.OpenReader`, `f.Open`) and the `io.ReadCloser` values: an entry is its name and an open-success flag, and a reader is the entry's position. The reader of an entry whose short path is later taken by another entry stays open in the source; the model does not track open readers.
- `isSupportedExtension` and `filepath.Clean`: function parameters, because their bodies are not part of this model.
- Path separators: `Ext` and the other path operations follow Go's `filepath` on Unix, where only `/` separates path elements. On Windows `\` is a separator too, so an extension there also stops at a `\`; the model does not capture that.
- `core/userdataimport.go` and `core/block/import/txt/converter.go`: account bootstrap and import orchestration over collaborators that are not part of this model.
