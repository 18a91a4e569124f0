# Unofficial Retro Patch: a verified model of the pixelation and backup pipeline

The Unofficial Retro Patch pixelates the textures of a Unity game. It reads
a list of texture paths per game edition, groups them by the container file
(`sharedassets0.assets` and the like) that holds them, and restores the
latest `.backupNNN` of each container so that it always starts from the
original. It then pixelates the matching `Texture2D` images and writes the
changed container to `<container>.tmp`. Later it swaps each temporary file in
behind a new numbered backup, waiting first for the game client to let go of
the file. Next to this pipeline sit the release script (version bump, commit
categories, changelog) and the GUI's progress bar, which reads the
pipeline's `Pixelating texture i/total` log lines.

The repository holds three copies of the pipeline: the older `core/`
package, `src/core/unity_processor.py`, and the `src/game` and
`src/processing` code used by the current GUI. The model keeps each copy
apart where they differ and shares what they have in common:

- `Os` (FileSystem.dfy) models the filesystem as a value: files with
  their contents, directories, and a counter of operations. Another process
  may hold a path at any operation, and an operation on a held path fails.
  Rename either replaces an existing destination (POSIX) or refuses it
  (Windows). The class `Os.FileSystem` wraps that value, and every
  pipeline method is proved to compute a function on it.
- `Backups`, `Paths`, `Grouping`, `Containers`: the numbered backup chain and the lock
  wait, the `os.path` string functions, grouping by container, and the
  texture loop shared by every copy.
- `Bitmap`, `ImageProcessor`, `PixelationProcessor`: Pillow images as
  grids, and the pixelation, shadow, offset and mask transforms with
  the compositor built from them.
- `CoreUnityProcessor`, `GameUnityProcessor`, `AssetProcessor`,
  `AssetManager`, `CoreFileUtils`, `UtilsFileUtils`, `BackupManager`: the
  per-file classes of the three copies.
- `VersionManager`: version.py's text work. `ProgressPanel`: the progress bar
  state of gui/components/progress_panel.py.

Loops of the source are Dafny methods with invariants. Each is specified by
a function, and the lemmas about that function carry what the source
promises: a backup extends the chain, by exactly one when the next number is
free (`BackupByRenameExtendsChain`); a restore shortens it by one
(`RestoreSucceeds`); a full rerun keeps its length and top backup
(`RerunKeepsChain`); a failed swap rolls back; the progress counter is read
back exactly; and reading the version after writing it gives the version
written.

## Model

| member | source | states |
|---|---|---|
| ImageProcessor.Sampled | src/processing/image_processor.py:41-52 | a NEAREST resize has the requested size and every pixel is the source pixel its index map picks |
| ImageProcessor.PixelateSize | src/processing/image_processor.py:41-52 | pixelation raises exactly when the intermediate size differs from the image's and one of the four sides is 0 (the same size is copied first, as Pillow does); otherwise the result has the input's width and height |
| ImageProcessor.PixelateNoNewColours | src/processing/image_processor.py:41-52 | every pixel of the pixelated image equals some pixel of the input |
| ImageProcessor.PixelateFlat | src/processing/image_processor.py:41-52 | a single-colour image comes back unchanged |
| ImageProcessor.BlackShadowsExact | src/processing/image_processor.py:55-88 | same size; exactly the pixels with R=G=B=0 and 64<A<255 take the shadow colour, all others are unchanged |
| ImageProcessor.BlackShadowsSparesLowAlpha | src/processing/image_processor.py:83 | a pixel with alpha at most 64 (fully transparent included) is never changed |
| ImageProcessor.BlackShadowsIdempotent | src/processing/image_processor.py:84-88 | with a colour that is not itself a shadow pixel, hardening twice equals hardening once |
| ImageProcessor.DefaultShadowIdempotent | src/processing/image_processor.py:55-88 | with the default (0,0,0,255) hardening is idempotent |
| ImageProcessor.HardenInPlace | src/processing/image_processor.py:79-88 | every buffer pixel becomes its hardened value, in place |
| ImageProcessor.ApplyBlackShadows | src/processing/image_processor.py:54-91 | the in-place buffer update yields the hardened image |
| ImageProcessor.OffsetCorrected | src/processing/image_processor.py:105-132 | the corrected image has the input's size |
| ImageProcessor.OffsetCorrectedShape | src/processing/image_processor.py:105-114 | an offset of at most 0 returns the input; otherwise the size is kept, the interior is the image shifted by the offset and the unreached top-left corner stays transparent |
| ImageProcessor.Cropped | src/processing/image_processor.py:117-127 | a crop has the box's size and reads transparent outside the source |
| ImageProcessor.PasteRightEdge | src/processing/image_processor.py:117-119 | after the right-edge loop the buffer holds the pastes so far, the left column repeated along the right band |
| ImageProcessor.PasteBottomEdge | src/processing/image_processor.py:122-124 | after the bottom-edge loop the top row is repeated along the bottom band |
| ImageProcessor.PasteCorner | src/processing/image_processor.py:127-130 | after the nested corner loops the top-left pixel fills the bottom-right block |
| ImageProcessor.ApplyOffsetCorrection | src/processing/image_processor.py:105-132 | the paste sequence on a fresh transparent buffer computes the corrected image |
| ImageProcessor.ExtractAlphaMask | src/processing/image_processor.py:144-145 | same size; 255 exactly where alpha is above 0, 0 elsewhere |
| ImageProcessor.HardMaskBinary | src/processing/image_processor.py:145 | the hard mask only holds 0 and 255 |
| ImageProcessor.ApplyMask | src/processing/image_processor.py:158 | the composite succeeds exactly when the mask has the image's size, and then keeps it |
| ImageProcessor.ApplyMaskBinary | src/processing/image_processor.py:158 | with a binary mask each pixel is the image's where the mask is 255 and transparent black where it is 0 |
| ImageProcessor.Div255Extremes | src/processing/image_processor.py:158 | the blend is exact at mask values 255 and 0 |
| Bitmap.Pasted | src/processing/pixelation_processor.py:62 | pixels covered by the pasted image take its values, the rest keep the destination's |
| Bitmap.Paste | src/processing/pixelation_processor.py:62 | the in-place paste on a pixel buffer changes exactly the covered pixels |
| Bitmap.PasteImage | src/processing/image_processor.py:114 | pasting through the buffer computes the same image as the pure paste |
| PixelationProcessor.PutAlpha | src/processing/pixelation_processor.py:75 | the in-place `putalpha` sets every pixel's alpha from the alpha band and keeps its colour |
| PixelationProcessor.LoadMask | src/processing/pixelation_processor.py:58-61 | a custom mask exists only when a path is given, the file is there and it decodes |
| PixelationProcessor.ProcessImage | src/processing/pixelation_processor.py:45-83 | the compositing steps, with in-place paste and alpha restore, compute the pipeline's result |
| PixelationProcessor.ProcessedShape | src/processing/pixelation_processor.py:52-75 | the output has the input's size; it fails exactly when pixelation fails or a custom mask has another size |
| PixelationProcessor.AlphaRestored | src/processing/pixelation_processor.py:48-75 | without hardening the output alpha equals the input alpha pixel for pixel |
| PixelationProcessor.TransparentStaysTransparent | src/processing/pixelation_processor.py:75-79 | a fully transparent input pixel stays fully transparent with or without hardening |
| PixelationProcessor.ProcessedColour | src/processing/pixelation_processor.py:49-70 | without hardening the colour is the pixelated colour where input alpha is above 0 and black where it is 0 |
| PixelationProcessor.SameSizeMaskIgnored | src/processing/pixelation_processor.py:60-63 | a custom mask of the image's size gives the same result as no custom mask |
| PixelationProcessor.ShadowsLast | src/processing/pixelation_processor.py:75-79 | the hardened result is the unhardened, alpha-restored result with hardening applied once at the end |
| PixelationProcessor.MissingMaskFallsBack | src/processing/pixelation_processor.py:58-72 | a mask that is not given, missing or undecodable gives the hard-mask result and never raises on its account |
| PixelationProcessor.ValidateProcessingParamsExact | src/processing/pixelation_processor.py:99-109 | one error for a resize amount outside [0.1, 1.0], then one for a given mask file that does not exist, and no other |
| Paths.Basename | src/core/unity_processor.py:50 | the base name holds no separator |
| Paths.SplitextParts | src/core/unity_processor.py:51 | name and extension concatenate back to the base name; the extension is empty or a dotted suffix without separators |
| Paths.JoinSplits | src/core/unity_processor.py:40-41 | `dirname` and `basename` of `join(dir, name)` give back `dir` and `name` |
| Grouping.EntryFor | src/core/unity_processor.py:50-62 | the entry's name and extension make up its base name and its mask lies under the masks root at `dir/basename` |
| Grouping.GroupedExact | src/core/unity_processor.py:34-64 | the dictionary holds each existing container some request lands in exactly once, and under it the entries of those requests in request order |
| Grouping.GroupedKeys | src/core/unity_processor.py:39-48 | a container is a key exactly when it exists and some request lands in it |
| Grouping.GroupedEntries | src/core/unity_processor.py:53-62 | under each key, the entries of exactly the requests landing there, in request order |
| Grouping.SelectedEmpty | src/core/unity_processor.py:53-62 | a container no request lands in selects no entries |
| Grouping.MaskPathsUnderRoot | src/core/unity_processor.py:61 | every grouped entry's mask path is the masks root joined with `dir/basename` |
| Grouping.GroupPixelateFiles | src/core/unity_processor.py:34-64 | the request loop builds the grouping of the requests |
| Backups.BackupName | src/core/unity_processor.py:69-75 | a backup name extends the file's path |
| Backups.BackupNameInjective | src/core/unity_processor.py:69-75 | two backup numbers of one file never share a name |
| Backups.ChainFrom | src/core/unity_processor.py:72-75 | the scan stops at a number whose successor is missing, with every backup below it present |
| Backups.ChainLengthUnique | src/core/unity_processor.py:68-75 | the scanned length is the one `n` with backups 1..n present and n+1 missing |
| Backups.ScanBackups | src/core/unity_processor.py:68-75 | the `while exists` loop returns the chain length |
| Backups.WaitForUnlockBounds | src/core/unity_processor.py:194-202 | the wait changes no file, polls at most ceil(max_wait/2) times, and reports free exactly when the final check finds the file present and not held |
| Backups.WaitForFileUnlock | src/core/unity_processor.py:194-200 | the polling loop computes the wait function's disk and answer |
| Backups.RestoreWithoutBackup | src/core/unity_processor.py:77-84 | with no `.backup001` nothing changes and the result is `None` |
| Backups.RestoreSucceeds | src/core/unity_processor.py:66-84 | a restore returns the highest backup of the chain, moves its content onto the file, leaves every other path alone and shortens the chain by one |
| Backups.RestoreKeepsBackupContent | src/core/unity_processor.py:79-81 | after a failure the latest backup is still in place; after success the file holds its content |
| Backups.RestoreLatestBackup | src/core/unity_processor.py:66-84 | the scan-remove-rename sequence computes the restore function |
| Backups.BackupByRenameExtendsChain | src/core/unity_processor.py:173-185 | the file moves to number (chain length + 1), the chain grows by at least one and by exactly one when the next number was free |
| Backups.CreateBackupByRename | src/core/unity_processor.py:173-188 | the method picks the first unused number and performs the backup rename |
| CoreUnityProcessor.DebugFolder | src/core/unity_processor.py:135 | debug images are written exactly when the folder is given and non-empty |
| CoreUnityProcessor.CoreConfig | src/core/unity_processor.py:122-128 | this copy's loop exempts no texture from the shadow flag |
| CoreUnityProcessor.ProcessedAssetResult | src/core/unity_processor.py:96-171 | the call succeeds exactly when the restore and the load do; the count is the number of matching (Texture2D, entry) pairs; the temp path is returned exactly when it could be written and holds the serialised container |
| CoreUnityProcessor.ProcessAssetFile | src/core/unity_processor.py:86-171 | the restore, the texture loop and the save compute the function's disk and result |
| CoreUnityProcessor.ReplaceLockedUnchanged | src/core/unity_processor.py:200-202 | a file still locked after the wait gives False and no file changes |
| CoreUnityProcessor.ReplaceSucceeds | src/core/unity_processor.py:204-214 | after a taken backup, success leaves the original at the first unused backup number and the temp file's content at the original path |
| CoreUnityProcessor.ReplaceWithoutBackupOverwrites | src/core/unity_processor.py:207-214 | where rename replaces an existing file, a failed backup still lets the temp file overwrite the original and the call reports success with no backup of the old content |
| CoreUnityProcessor.ReplaceWithoutBackupRefused | src/core/unity_processor.py:207-227 | where rename refuses an existing destination, a failed backup makes the swap fail with no file changed |
| CoreUnityProcessor.ReplaceRollsBack | src/core/unity_processor.py:216-227 | a failed swap after a taken backup that can be renamed back restores the disk's files exactly |
| CoreUnityProcessor.ReplaceFile | src/core/unity_processor.py:190-227 | the wait, backup, swap and rollback compute the replace function |
| CoreUnityProcessor.RerunKeepsChain | src/core/unity_processor.py:66-84 | restore, temp write and a successful replace leave the chain length and the highest backup's content unchanged, with the new data at the file |
| CoreUnityProcessor.TempIsNoBackup | src/core/unity_processor.py:156 | the temp path of a file is never one of its backup names |
| CoreUnityProcessor.ChainIgnoresTemp | src/core/unity_processor.py:156-160 | writing the temp file leaves the backup chain unchanged |
| Containers.ShadowFor | core/asset_processor.py:103-109 | the shadow flag for a texture is on exactly when shadows are on and `dir/asset` is not exempt |
| Containers.TexturePairs | src/core/unity_processor.py:104-108 | every pair names a Texture2D object of the container |
| Containers.Step | src/core/unity_processor.py:111-148 | one pair changes only its own object, and counts and logs it exactly when the pair matches |
| Containers.SweptCount | src/core/unity_processor.py:111-119 | the processed count is the number of matching pairs of the objects as loaded, and each counted texture is logged once, numbered in order |
| Containers.SweptModified | src/core/unity_processor.py:129-130 | `modified_objects` never outgrows the count and holds only objects some pair matched |
| Containers.SweptUntouched | src/core/unity_processor.py:111-148 | an object no pair matches comes out unchanged |
| Containers.SweptAllRecorded | src/core/unity_processor.py:129-130 | when processing never fails, every counted texture is recorded |
| Containers.StepFailureIsolated | src/core/unity_processor.py:147-148 | a pair whose processing fails is counted and logged and changes nothing else |
| Containers.SweptAppend | src/core/unity_processor.py:111 | the loop over two runs of pairs is the loop over the first followed by the loop over the second |
| Containers.SweptKeepsDisk | src/core/unity_processor.py:135-142 | without a debug folder the loop writes nothing |
| Containers.NonTexturesUnchanged | src/core/unity_processor.py:105-108 | objects that are not Texture2D never change |
| Containers.ProcessPair | src/core/unity_processor.py:112-148 | one iteration computes the step function and its disk |
| Containers.ProcessEntries | src/core/unity_processor.py:107-108 | the inner loop over the entries is the sweep over the object's pairs |
| Containers.ProcessTextures | src/core/unity_processor.py:104-148 | the nested loop is the sweep over all texture pairs |
| Containers.SavedTempExact | src/core/unity_processor.py:156-171 | the temp path comes back exactly when the file opens and the container serialises, and then holds the bytes; a failed serialisation leaves an empty temp file; no other path changes |
| Containers.SaveTemp | src/core/unity_processor.py:156-171 | the open, write and check compute the save function |
| GameUnityProcessor.LoadAssetFile | src/game/unity_processor.py:32-49 | the container loads exactly when UnityPy is available, the file exists and it parses; otherwise `None` |
| GameUnityProcessor.TextureObjects | src/game/unity_processor.py:60 | the result holds exactly the Texture2D objects and is no longer than the input |
| GameUnityProcessor.TextureObjectsAppend | src/game/unity_processor.py:60 | the filter distributes over concatenation, so it keeps the objects' order |
| GameUnityProcessor.GameConfig | src/game/unity_processor.py:116-129 | debug images are written exactly when the switch is on and a non-empty folder is given; no texture is exempt from shadows |
| GameUnityProcessor.LoadFailureWritesNothing | src/game/unity_processor.py:85-87 | a container that does not load gives `([], None)` and leaves the disk as it was |
| GameUnityProcessor.ProcessedGameAssetResult | src/game/unity_processor.py:89-144 | each recorded object is a Texture2D some entry matched; no more are recorded than pairs match, all of them when processing never fails; the temp file comes back exactly when it could be written |
| GameUnityProcessor.NoDebugWithoutSwitch | src/game/unity_processor.py:128-129 | with the debug switch off, no path but the temp file changes |
| GameUnityProcessor.ProcessGameAssetFile | src/game/unity_processor.py:62-144 | the load, texture loop and save compute the function's disk and result |
| AssetProcessor.ValidatedPaths | core/asset_processor.py:22-38 | no error exactly when target, `join(target, assets)` and masks all exist; otherwise the error of the first one missing |
| AssetProcessor.GroupedAssetsIsGrouping | core/asset_processor.py:40-50 | the early `{}` for no requests agrees with the grouping, and no requests give no groups |
| AssetProcessor.AssetConfig | core/asset_processor.py:99-120 | a texture's shadow flag is on exactly when shadows are on and `dir/asset` is not exempt; debug images exactly with `DEBUG_ENABLED` |
| AssetProcessor.AsWrittenDiscardsWork | core/asset_processor.py:66-143 | as written every container yields `(0, [])`, on the disk as the restore left it |
| AssetProcessor.AsWrittenStillRestores | core/asset_processor.py:68-143 | as written, a restored backup has been moved over the container although nothing was processed |
| AssetProcessor.ProcessedAssetFixedResult | core/asset_processor.py:63-143 | corrected, the count is the number of matching pairs of the restored container, the k-th message reads `start+k+1/total`, and the list holds `(file, file + ".tmp")` exactly when the save succeeded |
| AssetProcessor.AsWrittenLosesTemp | core/asset_processor.py:75-143 | wherever the corrected code hands back a temp file, the code as written hands back none |
| AssetProcessor.ProcessAssetFile | core/asset_processor.py:52-143 | the restore, load, loop and save compute the corrected function |
| AssetProcessor.RunContinuesStep | core/asset_processor.py:179-190 | one more container continues the running total and the concatenated list |
| AssetProcessor.ProcessedGroupsPairs | core/asset_processor.py:177-192 | the replacements name containers in group order (a subsequence of the keys), so at most one per container, each paired with its `.tmp` |
| AssetProcessor.ProcessedListsExactly | core/asset_processor.py:177-190 | over distinct containers, a container is listed exactly when its own run, on the disk and from the number its predecessors left, hands back a pair |
| AssetProcessor.FixedPairShape | core/asset_processor.py:132-134 | one container gives no replacement or exactly its own `.tmp` |
| AssetProcessor.AllProcessed | core/asset_processor.py:145-192 | corrected (each container run by `FixedRun`): a failed validation raises before any file changes; no requests give `[]` with nothing changed |
| AssetProcessor.AsWrittenEditionDiscardsWork | core/asset_processor.py:145-192 | as written, a validated edition with requests returns `[]` after restoring the latest backup of every grouped container in turn; validation failures and empty requests are as in the corrected code |
| AssetProcessor.RestoringGroups | core/asset_processor.py:177-190 | a container loop whose runs only restore counts nothing, lists nothing and restores each container in group order |
| AssetProcessor.AsWrittenRunRestores | core/asset_processor.py:66-143 | as written, each container's run only restores its latest backup and yields `(0, [])` |
| AssetProcessor.AllProcessedPairs | core/asset_processor.py:177-192 | corrected: the result lists `.tmp` files of grouped containers in group order, at most one each; a container is listed exactly when its corrected `process_asset_file`, on the disk and from the number the containers before it left, hands back a pair |
| AssetProcessor.ProcessGroups | core/asset_processor.py:177-190 | corrected: the container loop, numbering each container from where the last stopped, computes the run over the groups |
| AssetProcessor.ProcessAllAssets | core/asset_processor.py:145-192 | validation, grouping, the total and the container loop compute the corrected edition result `AllProcessed` |
| AssetManager.Missing | src/game/asset_manager.py:96-107 | one error line exactly when the path does not exist, none when it does |
| AssetManager.AssetFileErrorsExact | src/game/asset_manager.py:110-112 | the container errors name exactly the missing containers, at most one line per container |
| AssetManager.ValidationErrorsExact | src/game/asset_manager.py:94-114 | no error exactly when target, assets, masks and every container exist; a missing target is reported first, then a missing assets folder; with no containers (the call of line 144) at most three lines |
| AssetManager.ValidateAssetFiles | src/game/asset_manager.py:94-114 | the checks and the container loop compute the error list in order |
| AssetManager.EditionLoop | src/game/asset_manager.py:174-180 | the debug folder reaches the loop exactly when `DEBUG_ENABLED` is set and the folder is non-empty |
| AssetManager.ContainerPair | src/game/asset_manager.py:169-190 | a container contributes nothing or its own `(file, file + ".tmp")`, and contributes it exactly when the restore, the load and the save succeed, the `.tmp` then holding the serialised container; a failed restore is caught and skips the container |
| AssetManager.ContainerRunOwnTemp | src/game/asset_manager.py:182-183 | every container run hands back no pair or its own `.tmp` |
| AssetManager.EditionPairsInOrder | src/game/asset_manager.py:165-193 | the pairs follow the group order, at most one per container, each naming the container's `.tmp` |
| AssetManager.EditionResult | src/game/asset_manager.py:143-157 | validation errors raise `FileNotFoundError` with the lines joined by newlines before any file changes; no surviving group gives `[]` |
| AssetManager.EditionPairs | src/game/asset_manager.py:155-193 | an edition's pairs are grouped containers with their `.tmp`, in group order, at most one each; a container is listed exactly when its `.tmp` was written on the disk the containers before it left |
| AssetManager.EditionListsExactly | src/game/asset_manager.py:165-190 | over distinct containers, one is listed exactly when its own run, on the disk its predecessors left, hands back a pair |
| AssetManager.EditionContinuesStep | src/game/asset_manager.py:168-190 | one more container continues the concatenated list on the disk it left |
| AssetManager.ProcessContainer | src/game/asset_manager.py:169-190 | the loop body computes one container's run |
| AssetManager.ProcessContainers | src/game/asset_manager.py:165-190 | the container loop computes the run over the groups |
| AssetManager.ProcessEdition | src/game/asset_manager.py:116-193 | validation, grouping and the container loop compute the edition's result |
| AssetManager.PairFailureKeepsOriginal | src/game/asset_manager.py:224-254 | a pair that is not replaced changes no file except by adding the backup copy |
| AssetManager.AsWrittenNeverReplaces | src/game/asset_manager.py:232-249 | as written, where rename refuses an existing destination, no pair is ever replaced and the original keeps its content |
| AssetManager.FixedReplaces | src/game/asset_manager.py:230-243 | corrected, a replaced pair has the old content at the first unused backup number, the temp file's content at the original and the temp file gone |
| AssetManager.FixedReplacesWhenFree | src/game/asset_manager.py:224-243 | with nothing held and plain files in place the corrected code replaces the pair, where the code as written on Windows does not |
| AssetManager.AllReplacedAppend | src/game/asset_manager.py:224 | replacing a list in two parts equals replacing it whole, so no pair stops the later ones |
| AssetManager.LockedPairSkipped | src/game/asset_manager.py:226-228 | a pair still locked after the wait changes no file and the next pair is handled |
| AssetManager.ReplacePair | src/game/asset_manager.py:225-254 | the wait, copy backup, swap and restore compute the corrected pair function |
| AssetManager.ReplaceFiles | src/game/asset_manager.py:216-254 | the loop over pairs computes the corrected fold |
| CoreFileUtils.DirectoryCheck | core/file_utils.py:42-52 | `FileNotFoundError` with the description and path exactly when the path does not exist |
| CoreFileUtils.BackupOrRaiseExact | core/file_utils.py:54-70 | the backup is the first unused `.backupNNN`, takes the file's content and the file is gone; a failed rename raises and changes no file |
| CoreFileUtils.CreateBackup | core/file_utils.py:54-70 | the scan and rename compute the raising backup |
| CoreFileUtils.LooksLikeBackupContains | core/file_utils.py:101 | the `endswith(".backup001")` test adds nothing to the `".backup" in file` test |
| CoreFileUtils.BackupFilesExact | core/file_utils.py:95-103 | the scan keeps exactly the walked files whose name contains `.backup`, joined to their directory, and no more than were walked |
| CoreFileUtils.FindBackupFiles | core/file_utils.py:95-103 | the loop over the walk computes the scan in walk order |
| CoreFileUtils.GroupedMasksFixed | core/file_utils.py:141-143 | every mask path of this copy is `join("assets/masks", dir/asset)`, whatever masks folder is configured |
| CoreFileUtils.GroupFiles | core/file_utils.py:115-146 | grouping computes the shared grouping with the fixed masks root |
| CoreFileUtils.SavedTempFileExact | core/file_utils.py:148-171 | success returns `(asset_file, asset_file + ".tmp")` with the serialised bytes written there; a failure raises and touches no other path |
| CoreFileUtils.SaveTempFile | core/file_utils.py:148-171 | the write and re-raise compute the save function |
| UtilsFileUtils.EffectiveMaxWait | src/utils/file_utils.py:43 | both a missing limit and a limit of 0 fall back to the 30-second setting; any other limit is used as given |
| UtilsFileUtils.WaitDefaultedBounds | src/utils/file_utils.py:33-50 | under the default limit the wait sleeps at most 15 times, changes no file, and reports the negation of the final lock check |
| UtilsFileUtils.WaitForFileUnlockDefaulted | src/utils/file_utils.py:33-50 | the defaulted wait computes the wait function |
| UtilsFileUtils.CopyBackupExact | src/utils/file_utils.py:52-76 | a backup exists exactly when the file exists and the copy is possible; it takes the first unused number and the file's content, the file stays in place, and the chain grows; without a backup no file changes |
| UtilsFileUtils.CreateBackup | src/utils/file_utils.py:52-76 | the existence check, scan and copy compute the copy backup |
| UtilsFileUtils.RestoredByCopyExact | src/utils/file_utils.py:78-98 | without the backup nothing happens; success puts the backup's content at the original and keeps the backup; a failure changes nothing or has removed the original |
| UtilsFileUtils.RestoreBackup | src/utils/file_utils.py:78-98 | the remove and copy compute the restore function |
| UtilsFileUtils.OriginalName | src/utils/file_utils.py:116-117 | a path ending in `.backupNNN` is its original followed by that suffix; any other path is its own original |
| UtilsFileUtils.BackupPairsPaths | src/utils/file_utils.py:100-120 | the scan lists the same backup paths, in the same order, as the scan of core/file_utils.py, each paired with its original |
| UtilsFileUtils.AsWrittenKeepsNumber | src/utils/file_utils.py:117 | as written, removing every `.backup` leaves the number: `p.backup001` maps to `p001`, never to `p` |
| UtilsFileUtils.OriginalNameOfBackup | src/utils/file_utils.py:116-117 | corrected, the original of `p.backupNNN` is `p` for every number up to 999 |
| UtilsFileUtils.FindBackupFiles | src/utils/file_utils.py:100-120 | the walk loop computes the scan with the corrected original name |
| BackupManager.AsWrittenStopsAtFirstFailure | core/backup_manager.py:21-39 | as written, a first pair whose backup rename raises ends the loop with `UnboundLocalError` on `backup_file`, with no file changed and no later pair looked at |
| BackupManager.AsWrittenContinuesWithStaleBackup | core/backup_manager.py:26-41 | as written, once an earlier pair has set `backup_file`, a failed backup changes nothing and the loop goes on with the next pair |
| BackupManager.FixedContinuesAfterFailure | core/backup_manager.py:21-44 | corrected, a pair whose backup fails changes no file and the loop goes on with the rest |
| BackupManager.LockedPairUntouched | core/backup_manager.py:22-24 | a pair still locked after the wait is skipped with no file changed |
| BackupManager.PairSucceeds | core/backup_manager.py:26-34 | a replaced pair moved the original to the first unused backup number and the temporary file onto the original path |
| BackupManager.PairRollsBack | core/backup_manager.py:36-41 | a failed swap after a backup, with the backup renamed back, leaves every file as before the pair |
| BackupManager.ReplacePair | core/backup_manager.py:22-44 | the wait, backup, swap and rollback compute the corrected pair function |
| BackupManager.ReplaceFiles | core/backup_manager.py:17-44 | the loop over pairs computes the corrected fold over the list |
| BackupManager.RestoredSucceeds | core/backup_manager.py:56-68 | a restore that succeeds leaves the backup's content at the original, the backup gone, and nothing at `original + ".tmp"` |
| BackupManager.RestoredFailureStrandsOriginal | core/backup_manager.py:58-72 | a failure of the second rename leaves the original's content only at `original + ".tmp"` and returns false |
| BackupManager.RestoreBackup | core/backup_manager.py:56-72 | the three steps compute the restore function |
| VersionManager.Search | version.py:27 | `re.search` gives the leftmost index at which the pattern matches, and none when no index matches |
| VersionManager.Substituted | version.py:36 | `re.sub` leaves text without a version line unchanged |
| VersionManager.VersionTextMatches | version.py:35-36 | the text `set_version` writes matches the pattern where it stands and reads back as the version it was made from, whatever surrounds it |
| VersionManager.ReadAfterWrite | version.py:24-37 | after `set_version(a, b, c)` the version read is `(a, b, c)` and the new line is in the file; a file without a version line is left as it was |
| VersionManager.WrittenReadsBack | version.py:27-36 | the version text written in place of the first match is the first match of the new text |
| VersionManager.SearchFinds | version.py:27 | the leftmost match from an index on is the one found |
| VersionManager.BumpedIsNext | version.py:40-57 | only "major", "minor" and "patch" are accepted, any other type raises `ValueError` with its message; each bump gives a newer version, and the least newer one at its level: a patch bump is the next version, and any version strictly between the old one and a minor (major) bump keeps the old minor (major) number, so the lower parts are reset to 0 |
| VersionManager.VersionFiles.GetCurrentVersion | version.py:24-30 | the version of the first match, or `ValueError` when there is none |
| VersionManager.VersionFiles.SetVersion | version.py:32-37 | pyproject.toml becomes its substituted text and the changelog is untouched |
| VersionManager.VersionFiles.BumpVersion | version.py:40-57 | the result is the bump of the current version; on success the file reads as the bumped version; a missing version or an unknown bump type writes nothing |
| VersionManager.SplitCommitParts | version.py:93-94 | the hash is the text before the first space and the message what follows it, or "" when there is no space |
| VersionManager.ClassifiedNamed | version.py:97-104 | a commit in a named category has that category's prefix and keeps the trimmed rest after it, and its hash |
| VersionManager.ClassifiedOther | version.py:105-106 | any other commit keeps its whole message, which starts with none of the four prefixes |
| VersionManager.InCategorySnoc | version.py:92-106 | one more commit adds its item only to its own category's list |
| VersionManager.CategoriesPartition | version.py:84-106 | every commit lands in exactly one of the five categories: their lists add up to the input |
| VersionManager.ItemInCategory | version.py:92-106 | each commit's item is in its own category's list |
| VersionManager.CategorizedStep | version.py:92-106 | one loop step keeps the five lists those of the commits seen so far |
| VersionManager.CategorizeCommits | version.py:82-108 | the five lists, keyed by category, are the commits of each category, in commit order |
| VersionManager.Categorized | version.py:84-117 | the categories come in the order Features, Bug Fixes, Documentation, Refactoring, Other, each with its commits |
| VersionManager.EntryListsEveryCommit | version.py:110-124 | the entry starts with `## [version] - date`, lists every commit as `- message (hash)` and holds the heading of every category that has a commit |
| VersionManager.EmptyEntry | version.py:117-118 | without commits the entry is the header alone: empty categories give no section |
| VersionManager.AppendSection | version.py:118-122 | one pass of the outer loop appends the category's section, and nothing for an empty list |
| VersionManager.GenerateChangelogEntry | version.py:110-124 | the accumulated string is the entry of the commits in category order |
| VersionManager.ChangelogInsertsEntry | version.py:126-138 | a new changelog is the preamble then the entry; an existing one with the heading once at its top gets the entry right after the heading and keeps its old text; one without the heading is written back unchanged |
| VersionManager.VersionFiles.UpdateChangelog | version.py:126-138 | CHANGELOG.md becomes the updated text with the generated entry, and pyproject.toml is untouched |
| VersionManager.CleanLinesClean | version.py:79 | every kept line is non-empty, stripped and a single line, and no more lines are kept than there were |
| VersionManager.KeptPositionsExact | version.py:79 | the positions of the kept pieces increase, and a piece is kept exactly when its stripped text is non-empty |
| VersionManager.CleanLinesExact | version.py:79 | the j-th kept line is the j-th non-blank piece, stripped, so together with `KeptPositionsExact` every non-blank piece is kept, stripped and in order, and nothing else |
| VersionManager.CommitLinesClean | version.py:79 | the commit lines are exactly the non-blank lines of the stripped `git log` output, each stripped, in their order; every one is non-empty, has no white space at either end and holds no newline |
| ProgressPanel.FirstFraction | gui/components/progress_panel.py:88 | no match is returned only when no index matches `(\d+)/(\d+)` |
| ProgressPanel.FirstFractionAt | gui/components/progress_panel.py:88 | a match with none before it is the one returned |
| ProgressPanel.ProgressUpdateSound | gui/components/progress_panel.py:82-96 | an update happens only for a message with "Pixelating texture" and "/", carries the leftmost `digits/digits`, never has a zero total, and passes the throttle |
| ProgressPanel.ThrottleGap | gui/components/progress_panel.py:92-93 | above 20 textures, among any `total // 20` consecutive counters one updates the bar |
| ProgressPanel.ThrottleKeepsSmallAndLast | gui/components/progress_panel.py:93 | up to 20 textures every counter updates the bar, and so does the last counter |
| ProgressPanel.PanelReadsCounter | gui/components/progress_panel.py:84-94 | the asset processor's message `Pixelating texture i/total: name` is read as exactly `i` of `total` whatever the name, and updates the bar exactly when the total is non-zero and the throttle passes |
| ProgressPanel.CounterRead | gui/components/progress_panel.py:88-90 | two runs of digits around a `/`, followed by a non-digit, match there and read as the values of the two runs |
| ProgressPanel.ProgressPanel.constructor | gui/components/progress_panel.py:26-30 | the bar starts hidden, at 0 |
| ProgressPanel.ProgressPanel.ShowProgressBar | gui/components/progress_panel.py:51-55 | the bar is shown afterwards whether or not it was before; the value is kept |
| ProgressPanel.ProgressPanel.HideProgressBar | gui/components/progress_panel.py:57-61 | the bar is hidden afterwards whether or not it was before; the value is kept |
| ProgressPanel.ProgressPanel.SetProgress | gui/components/progress_panel.py:63-65 | the value is the one given and the visibility is kept |
| ProgressPanel.ProgressPanel.UpdateProgressFromMessage | gui/components/progress_panel.py:82-96 | the bar takes the message's update when there is one and keeps its value otherwise |
| Decimal.NatToStringValue | version.py:30-35 | `int(str(n)) == n`: the decimal text of a number reads back as that number |
| Decimal.Pad3Value | core/file_utils.py:61 | the `{n:03}` text of a backup number reads back as that number |
| Decimal.Pad3Injective | core/file_utils.py:61 | different backup numbers give different `{n:03}` texts |
| Decimal.Pad3Length | core/file_utils.py:61 | below 1000 the `{n:03}` text is exactly three digits |
| Text.SplitJoins | version.py:79 | splitting on a separator and joining back with it gives the text again |

## Left out

- UnityPy is not modelled. Loading a container, serialising it, and encoding an image to PNG are functions passed in as parameters. A failed load is `None` or an exception, as each copy handles it.
- The image processing of core/pixelation_engine.py and src/image_processing is not part of this model. The containers of core/ and src/core take the per-texture result as a function parameter.
- Pillow's NEAREST resampling is a parameter. It is the index map from destination pixels to source pixels. The intermediate size `round(w * f)` is a parameter too, because it is floating point.
- Floating point: `resize_amount` is a real. The progress percentage `current / total * 100` is kept as the exact fraction `(current, total)`.
- `ImageProcessor.ApplyMask`: for mask values strictly between 0 and 255, the composite is modelled by the rounding division `Div255` of Pillow's blend. The properties are proved only for masks of 0 and 255. Those are the only masks that reach the composite: a custom mask of the image's size is covered entirely by the hard mask, and one of any other size fails.
- `time.sleep`, `print`, `warnings.warn` and logger output are not modelled. The lock wait counts its probes instead of sleeping. Log lines appear only where another component reads them, namely the progress messages.
- Paths use the POSIX separator `/` only. Python's Unicode `\d`, `isspace` and `strip` are modelled on ASCII digits and white space.
- `datetime.now()` becomes a date string parameter of `GenerateChangelogEntry` and `UpdateChangelog`.
- `get_git_changes`, `create_git_tag`, `build_distribution`, the GitHub release functions, `run_release_workflow` and `main` of version.py are subprocess and network work. They are left out. Only the line cleaning of the git output (`CommitLines`) is modelled.
- `VersionManager.VersionFiles.SetVersion` takes natural numbers. The Python method also accepts negative ints and would write a `-` that the pattern can never read back.
- `VersionManager.VersionFiles` holds the two files as text fields. The reads and writes of pyproject.toml and CHANGELOG.md are assignments to those fields.
- The GUI is not modelled: widgets, packing, the status text, the apply button and its callback. Only `progress_bar_visible` and the bar's value are kept.
- Threads, the memory logging and cleanup of `MemoryUtils`, and `log_memory_usage` are left out.
- `get_file_modified_date`, `ensure_directory_exists`, `get_file_size_mb`, `is_file_locked` (beyond the lock oracle), `get_backup_info` and `find_backups_in_directory` are not modelled. They are one-line wrappers of `os` calls or of a function that is modelled.
- The debug image export does not model the `os.makedirs` of the debug folder. A write into a missing folder is simply a write.
- Loads and existence checks read the disk without advancing the operation counter. Only operations that change or open a file can meet a held path.
- `Text.ReplaceAll` requires a non-empty pattern. Every pattern the source replaces is a non-empty constant.

## Findings

| source | as written | input that shows it | evidently intended | confidence | as-written member | corrected member |
|---|---|---|---|---|---|---|
| core/asset_processor.py:75 | `pixelate_entries.keys()` is called on the container's entry list. A list has no `keys`, so every call raises `AttributeError` after the backup has been restored. The outer handler then drops all work and returns no pair. | any container with at least one entry, e.g. one entry `ui_icon.png` | the container's index among the grouped containers, with its textures processed and saved to `.tmp` | not executed | AssetProcessor.AsWrittenDiscardsWork | AssetProcessor.ProcessedAssetFixedResult |
| core/backup_manager.py:39 | `backup_file` is unbound when the first pair's `create_backup` raises. The handler's `os.path.exists(backup_file)` then raises `UnboundLocalError` out of the loop, so no later pair is replaced. | two pairs where the rename backup of the first fails because the file is held at that moment | skip the failed pair and go on with the rest | not executed | BackupManager.AsWrittenStopsAtFirstFailure | BackupManager.FixedContinuesAfterFailure |
| src/game/asset_manager.py:241 | `create_backup` copies, so the original stays in place. `os.rename(temp, original)` then raises `FileExistsError` on Windows, and no pair is ever replaced. | Windows rename rule, a free original and a `.tmp` beside it | `os.replace`, which overwrites the original that the copy backup preserved | not executed | AssetManager.AsWrittenNeverReplaces | AssetManager.FixedReplacesWhenFree |
| src/utils/file_utils.py:117 | The original name is the backup path with every `.backup` removed, so the number stays. | `a.assets.backup001` gives `a.assets001` | `a.assets`, the file the backup was taken from | not executed | UtilsFileUtils.AsWrittenKeepsNumber | UtilsFileUtils.OriginalNameOfBackup |
