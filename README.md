# SSCMA-Micro core, modelled in Dafny

This project models five pieces of the SSCMA-Micro runtime and proves
properties of them:

- **FOMO detector** (`fomo.dfy`, module `Fomo`). The shape gate `isValid`
  decides whether an inference engine suits the model. It sniffs NHWC or
  NCHW, and requires a square input whose side is a multiple of 32 and an
  output grid that fits inside it. The int8 decoder `postProcessI8` scans
  the grid row-major. It takes a strict arg-max over the channels of each
  cell, seeded with the score threshold, and emits at most one box per cell.
- **AT command server** (`at_server.dfy`, module `AtServer`). It covers the
  service registry (`addService`, `argc`) and `execute`: line clean-up, the
  split at the first `=`, upper-casing, the `AT+` prefix, the `@` tag,
  service look-up, the quote/escape/number tokenizer and the arity check.
- **littlefs key/value store** (`storage_lfs.dfy`, module `StorageLfs`).
  - `keyToPath` percent-encodes a key, appends `#` and cuts the result into
    16-character path components.
  - `set`, `get`, `exists` and `remove` each assemble a path from those
    components.
  - `mount` and `uMount` keep a mount flag.
  - The typed getters fall back to a default value.
  - The volume is a value `Fs`: files by path, plus a set of directories.
- **pthread OS abstraction** (`osal.dfy`, module `Osal`). It covers the
  32-bit tick conversions, the split of a tick for `clock_nanosleep`, the
  absolute deadline of a timed wait, the semaphore counter, the event bit
  mask and the message-box ring buffer.
- **Contents export** (`contents_export.dfy`, module `ContentsExport`). It
  covers the capacity policy of the byte cache, the retry budget of the
  one-time filesystem set-up, the numbering of export directories from an
  info file and the export path.

`common.dfy` (module `MaTypes`) holds the shared error codes, `Option`, the
2^32 and 2^64 moduli and character counting.

External effects become parameters:
- the results of littlefs, Extfs and pthread calls are the records
  `MountIo`, `UMountIo`, `InitIo` and `CommitIo`;
- the clock reading is a `Timespec` argument;
- service callbacks are opaque indices.

The model has one thread. A wait that would block forever is excluded by a
precondition. A timed wait whose resource is unavailable returns failure.

Where the code as written misbehaves, the model keeps two definitions. One
models the code as written, with a lemma that exhibits the failing input.
The other is corrected, with the intended property proved. The classes
(`Store.Set` and `Store.MakeParentDirs`, `Exporter.Cache`,
`Exporter.InitFilesystem`, `ATServer.Execute` and `ATServer.DispatchLine`)
implement the corrected behaviour; see "## Findings" and "## Left out".

## Model

| member | source | states |
|---|---|---|
| Fomo.IsValid | sscma/core/model/ma_model_fomo.cpp:12-59 | An accepted engine has exactly one input and one output, both of rank 4 |
| Fomo.IsValidIffCompatible | sscma/core/model/ma_model_fomo.cpp:12-59 | The gate accepts exactly the engines with one square input (side a multiple of 32 and at least 32, 1 or 3 channels, batch 1, in either layout) and one output [1, H, W, T] with 2 <= H, W <= side and T >= 2 |
| Fomo.GridWithinInput | sscma/core/model/ma_model_fomo.cpp:47-56 | The gate bounds dims[1] by the input width and dims[2] by the height; since h == w, the decoder's reading of dims[1] as height and dims[2] as width is also bounded (lines 90-91) |
| Fomo.CellIndexInBounds | sscma/core/model/ma_model_fomo.cpp:104 | Every flat index i*W*T + j*T + t the decoder reads is below H*W*T |
| Fomo.ChannelScoreAt | sscma/core/model/ma_model_fomo.cpp:104 | The index of (i, j, t) is inside the tensor, and channel t's score is the dequantised value read there |
| Fomo.Score | sscma/core/model/ma_model_fomo.cpp:103 | With a positive scale, a raw value scores above zero exactly when it lies above the zero point; the zero point scores zero |
| Fomo.BestPrefix | sscma/core/model/ma_model_fomo.cpp:101-109 | The running target after t channels is -1 or a channel below t |
| Fomo.BestPrefixSpec | sscma/core/model/ma_model_fomo.cpp:101-109 | After scanning t channels: target -1 means no score beat the threshold; otherwise the maximum is above the threshold, is attained at the target, bounds every scanned score, and no earlier channel attains it |
| Fomo.CellBox | sscma/core/model/ma_model_fomo.cpp:110-121 | An emitted box's target is a channel of the grid |
| Fomo.CellBoxSpec | sscma/core/model/ma_model_fomo.cpp:101-123 | A cell emits no box iff every channel score is at most the threshold; a box's score is above the threshold and is the cell maximum, and its target is the first channel attaining it |
| Fomo.RowCellsSpec | sscma/core/model/ma_model_fomo.cpp:100-124 | One row yields at most one box per cell, from the cells of that row, left to right |
| Fomo.GridCellsSpec | sscma/core/model/ma_model_fomo.cpp:99-125 | The k-th box decoded is the box of the k-th emitting cell, and the cells are in strict row-major order |
| Fomo.RowBoxes | sscma/core/model/ma_model_fomo.cpp:99-124 | One row yields at most one box per cell, and every box names a channel of the grid |
| Fomo.GridBoxes | sscma/core/model/ma_model_fomo.cpp:98-125 | The first i rows never yield more boxes than i times the row width |
| Fomo.Decode | sscma/core/model/ma_model_fomo.cpp:98-125 | A decode pass never emits more boxes than the grid has cells |
| Fomo.DecodeBoxesSound | sscma/core/model/ma_model_fomo.cpp:99-125 | At most pred_h*pred_w boxes are emitted, and every box scores above the threshold with a target in [0, pred_t) |
| Fomo.GridOf | sscma/core/model/ma_model_fomo.cpp:86-97 | The decode parameters taken from the output tensor describe a tensor of exactly H*W*T values |
| Fomo.BestChannel | sscma/core/model/ma_model_fomo.cpp:101-109 | The channel loop computes the strict arg-max seeded with (threshold, -1) |
| Fomo.FomoModel.constructor | sscma/core/model/ma_model_fomo.cpp:8 | A new detector has no results and the given threshold |
| Fomo.FomoModel.PostProcess | sscma/core/model/ma_model_fomo.cpp:63-75 | A non-int8 output gives ENOTSUP and leaves the results untouched; an int8 output gives OK and the decoded boxes |
| Fomo.FomoModel.DecodeRow | sscma/core/model/ma_model_fomo.cpp:100-124 | One pass over a row appends exactly the boxes of that row's emitting cells |
| Fomo.FomoModel.PostProcessI8 | sscma/core/model/ma_model_fomo.cpp:77-130 | The results are cleared, then hold exactly the row-major decode of the grid; the return is OK |
| AtServer.Service.Argc | sscma/server/at/ma_server_at.cpp:24 | argc is at least 1, and is 1 exactly when the argument spec has no comma |
| AtServer.ArgcJoin | sscma/server/at/ma_server_at.cpp:24 | Joining two argument specs with a comma adds their argc values |
| AtServer.FindService | sscma/server/at/ma_server_at.cpp:282-286 | The look-up finds the first service with the name, or reports that none has it |
| AtServer.StripNonPrintable | sscma/server/at/ma_server_at.cpp:251-252 | Clean-up never lengthens the line |
| AtServer.StripKeepsExactlyPrintable | sscma/server/at/ma_server_at.cpp:251-252 | A character survives clean-up iff it was in the line and is printable |
| AtServer.StripKeepsPrintable | sscma/server/at/ma_server_at.cpp:251-252 | A line of printable characters is left unchanged |
| AtServer.StripConcat | sscma/server/at/ma_server_at.cpp:251-252 | Clean-up of a concatenation is the concatenation of the clean-ups, and a single character survives exactly when printable; together these fix the order and repetitions of what survives |
| AtServer.FirstIndexOf | sscma/server/at/ma_server_at.cpp:255 | The position found holds the character and no earlier position does; none is found iff the character is absent |
| AtServer.SplitCommand | sscma/server/at/ma_server_at.cpp:255-261 | Without '=' the whole line is the name with no arguments; otherwise name + "=" + args is the line and the name has no '=' |
| AtServer.UpperAscii | sscma/server/at/ma_server_at.cpp:263 | Upper-casing keeps the length and maps each character to its upper-case form; only 'a'..'z' change |
| AtServer.AfterLastAt | sscma/server/at/ma_server_at.cpp:277-279 | The command body is the suffix after the last '@', has no '@', and is the whole name when it has none |
| AtServer.QuotedFrom | sscma/server/at/ma_server_at.cpp:303-317 | Reading a quoted token always moves past the opening quote and never further than one past the end |
| AtServer.DigitRunEnd | sscma/server/at/ma_server_at.cpp:319-322 | The digit run ends inside the text, at a non-digit or at the end |
| AtServer.DigitRunAllDigits | sscma/server/at/ma_server_at.cpp:319-322 | Every character of a digit run is a digit |
| AtServer.TokenAt | sscma/server/at/ma_server_at.cpp:302-325 | Each tokenizer step strictly advances the index |
| AtServer.TokenizeBounds | sscma/server/at/ma_server_at.cpp:294-326 | The vector starts with the name and its earlier entries, and stops at the limit argc + 1 |
| AtServer.Tokenize | sscma/server/at/ma_server_at.cpp:294-326 | The tokenizer adds at most one token per remaining character of the argument text |
| AtServer.UnquotedTokensAreNumbers | sscma/server/at/ma_server_at.cpp:318-325 | In argument text without quotes every token is '-' or a digit followed only by digits; every other character is skipped |
| AtServer.QuotedRoundTrip | sscma/server/at/ma_server_at.cpp:303-317 | A string with its quotes and backslashes escaped, then closed by the quote, is read back exactly, and reading resumes after the closing quote |
| AtServer.UnterminatedQuoteTakesRest | sscma/server/at/ma_server_at.cpp:306-316 | An unclosed quote without backslashes takes the rest of the line |
| AtServer.Resolve | sscma/server/at/ma_server_at.cpp:246-291 | A resolved line names an existing service |
| AtServer.ResolveSound | sscma/server/at/ma_server_at.cpp:263-291 | A resolved line's upper-cased name has the "AT+" prefix; the service found is named by the text after the last '@'; the arguments are the text after '=' |
| AtServer.ExecuteRejectsUnknown | sscma/server/at/ma_server_at.cpp:266-291 | A name without "AT+", or whose command body matches no service, gives EINVAL and dispatches nothing |
| AtServer.DispatchBounds | sscma/server/at/ma_server_at.cpp:294-335 | A dispatch carries the resolved service and name, with between the required number and the limit of entries |
| AtServer.DispatchResolvedBounds | sscma/server/at/ma_server_at.cpp:294-337 | With the arity check as written, a dispatched vector starts with the name and has argc or argc + 1 entries |
| AtServer.DispatchResolved | sscma/server/at/ma_server_at.cpp:327-337 | With the arity check as written, the only error is EINVAL, and a dispatch names the resolved service |
| AtServer.ExecuteSpec | sscma/server/at/ma_server_at.cpp:246-340 | `execute` as written either rejects with EINVAL or dispatches a registered service |
| AtServer.ExecuteDispatch | sscma/server/at/ma_server_at.cpp:246-337 | A dispatched line starts with "AT+", argv[0] is the name after it, the service is named by its command body, and argv has argc or argc + 1 entries |
| AtServer.PlainLineSplits | sscma/server/at/ma_server_at.cpp:251-263 | "AT+NAME" with an upper-case plain name is its own command part and has no arguments |
| AtServer.PlainLineResolves | sscma/server/at/ma_server_at.cpp:266-291 | "AT+NAME" resolves to the service NAME with empty argument text |
| AtServer.ArityAdmitsMissingArgument | sscma/server/at/ma_server_at.cpp:329 | A service declaring one argument, called with none, is dispatched with argv == [name] |
| AtServer.YieldDispatchedWithoutArgument | sscma/server/at/ma_server_at.cpp:154-169 | "AT+YIELD" is dispatched without the TIME_S argument its callback reads |
| AtServer.IntendedRejectsMissingArgument | sscma/server/at/ma_server_at.cpp:329 | Under the intended check, a service that declares arguments is rejected when called with none |
| AtServer.YieldNeedsArgument | sscma/server/at/ma_server_at.cpp:154-169 | Under the intended check, "AT+YIELD" without an argument is rejected with EINVAL |
| AtServer.IntendedAgreesOnCompleteCalls | sscma/server/at/ma_server_at.cpp:329 | For a service that declares arguments, the intended check changes the outcome iff the written check dispatched a call with one argument missing |
| AtServer.DispatchIntended | sscma/server/at/ma_server_at.cpp:329 | With the intended arity check, the only error is EINVAL, and a dispatch names the resolved service |
| AtServer.IntendedNarrowsWritten | sscma/server/at/ma_server_at.cpp:329 | Whatever the intended check dispatches, the written check dispatches too |
| AtServer.ExecuteIntended | sscma/server/at/ma_server_at.cpp:246-340 | The intended `execute` rejects only with EINVAL, and dispatches only lines the written `execute` dispatches, to the same service |
| AtServer.DispatchIntendedExact | sscma/server/at/ma_server_at.cpp:329-337 | Under the intended check, a dispatched vector has exactly the declared number of arguments plus the name |
| AtServer.IntendedArityExact | sscma/server/at/ma_server_at.cpp:246-337 | A line dispatched by the intended `execute` gives its callback exactly the name and every declared argument |
| AtServer.TokenizeArgs | sscma/server/at/ma_server_at.cpp:294-326 | The tokenizer loop produces the token vector the tokenizer specification defines |
| AtServer.ReadQuoted | sscma/server/at/ma_server_at.cpp:303-317 | The inner loop with its one-quote stack reads the quoted token and the resume index the specification defines |
| AtServer.ATServer.constructor | sscma/server/at/ma_server_at.cpp:43-47 | A new server has no services |
| AtServer.ATServer.AddService | sscma/server/at/ma_server_at.cpp:28-36 | A duplicate name gives EEXIST and leaves the list unchanged; otherwise the service is appended with OK; names stay pairwise distinct |
| AtServer.ATServer.ResolveLine | sscma/server/at/ma_server_at.cpp:246-291 | Clean-up, split, upper-casing, prefix and tag handling and look-up give the resolution the specification defines |
| AtServer.ATServer.DispatchLine | sscma/server/at/ma_server_at.cpp:293-337 | Tokenizing and the intended arity check give the intended dispatch; for a service that declares arguments, every dispatch it makes is the one the written check at line 329 makes |
| AtServer.ATServer.Execute | sscma/server/at/ma_server_at.cpp:246-340 | One line gives the outcome of the intended `execute`: rejection with EINVAL, or dispatch with exactly the declared arguments |
| StorageLfs.HexDigit | sscma/porting/posix/ma_storage_lfs.cpp:32 | A table digit is a lower-case hex character whose value is the nibble |
| StorageLfs.HexDigitTable | sscma/porting/posix/ma_storage_lfs.cpp:32 | The digits are those of the "0123456789abcdef" table |
| StorageLfs.EncodeByte | sscma/porting/posix/ma_storage_lfs.cpp:150-160 | Alphanumerics, '_', '-' and '.' are kept; any other byte becomes '%' and two hex digits |
| StorageLfs.EncodeBody | sscma/porting/posix/ma_storage_lfs.cpp:150-161 | The encoding is one to three times as long as the key and holds only verbatim characters, '%' and hex digits |
| StorageLfs.EncodeBodyAppend | sscma/porting/posix/ma_storage_lfs.cpp:150-161 | Encoding works character by character: the encoding of a concatenation is the concatenation of the encodings |
| StorageLfs.EncodeKey | sscma/porting/posix/ma_storage_lfs.cpp:150-162 | The encoded key ends in the only '#' it contains, and contains no '/' |
| StorageLfs.DecodeEncodeBody | sscma/porting/posix/ma_storage_lfs.cpp:150-161 | Decoding an encoded body gives back the key |
| StorageLfs.DecodeKeyTerminated | sscma/porting/posix/ma_storage_lfs.cpp:162 | The decoder strips the one terminating '#' |
| StorageLfs.KeyRoundTrip | sscma/porting/posix/ma_storage_lfs.cpp:148-162 | Every key is recovered from its encoding |
| StorageLfs.EncodeKeyInjective | sscma/porting/posix/ma_storage_lfs.cpp:148-162 | Distinct keys have distinct encodings |
| StorageLfs.ChunksConcat | sscma/porting/posix/ma_storage_lfs.cpp:164-167 | The pieces concatenate to the encoded key, and there are none iff it is empty |
| StorageLfs.ChunksSizes | sscma/porting/posix/ma_storage_lfs.cpp:164-167 | The pieces are 1 to break_size long and all but the last are exactly break_size; there is one piece iff the text fits in one |
| StorageLfs.ChunksAvoid | sscma/porting/posix/ma_storage_lfs.cpp:164-167 | A character absent from the text is absent from every piece |
| StorageLfs.PartsOfSpec | sscma/porting/posix/ma_storage_lfs.cpp:177-180 | A key's component list is never empty (so the empty-list checks are unreachable), concatenates to the encoded key, has components of 1 to 16 characters without '/', and has a single component iff the encoding fits in 16 characters |
| StorageLfs.KeyToPath | sscma/porting/posix/ma_storage_lfs.cpp:148-169 | The method returns the break_size pieces of the encoded key |
| StorageLfs.EncodeKeyLoop | sscma/porting/posix/ma_storage_lfs.cpp:149-162 | The encoding loop builds the encoded key |
| StorageLfs.ChunkLoop | sscma/porting/posix/ma_storage_lfs.cpp:164-167 | The substr loop builds the pieces of the encoded key |
| StorageLfs.JoinPathSlashes | sscma/porting/posix/ma_storage_lfs.cpp:227-231 | A joined path of slash-free components has one '/' per component |
| StorageLfs.SetPathAsWritten | sscma/porting/posix/ma_storage_lfs.cpp:182-191 | The file path `setImpl` builds from slash-free components has a single '/', however many components there are |
| StorageLfs.SetDirsAsWritten | sscma/porting/posix/ma_storage_lfs.cpp:183-190 | `setImpl` creates one directory per component but the last, and each is the file path with the remaining components cut off, glued with no '/' |
| StorageLfs.SetPathAsWrittenAgreesIff | sscma/porting/posix/ma_storage_lfs.cpp:182-191 | For slash-free components, set's glued path equals get's joined path iff there is one component |
| StorageLfs.SetGetPathsAgreeIff | sscma/porting/posix/ma_storage_lfs.cpp:182-191 | For a key, set and get use the same file iff its encoding is at most 16 characters |
| StorageLfs.LongPlainKeySplits | sscma/porting/posix/ma_storage_lfs.cpp:182-191 | A key of 16 verbatim characters takes two components, and set writes a file get never opens |
| StorageLfs.SetDirsAreAncestors | sscma/porting/posix/ma_storage_lfs.cpp:182-190 | Each directory the corrected set creates, followed by '/', is a prefix of the file path |
| StorageLfs.DropSlashesJoin | sscma/porting/posix/ma_storage_lfs.cpp:227-231 | Removing the separators from a joined path of slash-free components gives the glued components |
| StorageLfs.PathOf | sscma/porting/posix/ma_storage_lfs.cpp:227-231 | A key's path has one '/' per component, and removing the separators gives back the encoded key |
| StorageLfs.PathOfInjective | sscma/porting/posix/ma_storage_lfs.cpp:227-231 | Distinct keys are stored at distinct paths |
| StorageLfs.MakeDirs | sscma/porting/posix/ma_storage_lfs.cpp:183-190 | mkdir over a list of paths adds exactly those not already files, and touches no file |
| StorageLfs.WriteAsWritten | sscma/porting/posix/ma_storage_lfs.cpp:195-211 | The open and write succeed iff the path is not a directory; on success only that file changes, it starts with the data, and a longer old content keeps its tail past the data |
| StorageLfs.WriteReplacing | sscma/porting/posix/ma_storage_lfs.cpp:195-211 | The write as evidently intended (with truncation): it succeeds iff the path is not a directory, and the file then holds exactly the data; a failed write changes nothing |
| StorageLfs.OperationsKeepConsistent | sscma/porting/posix/ma_storage_lfs.cpp:171-288 | set (as written and corrected) and remove never make a path both a file and a directory |
| StorageLfs.SetFsAsWritten | sscma/porting/posix/ma_storage_lfs.cpp:171-214 | `setImpl` as written creates no file but the glued one, only adds directories, and on success leaves that file starting with the data |
| StorageLfs.SetFs | sscma/porting/posix/ma_storage_lfs.cpp:171-214 | The corrected set creates no file but the key's own, only adds directories, and on success that file holds exactly the data |
| StorageLfs.GetFs | sscma/porting/posix/ma_storage_lfs.cpp:216-253 | A read on a mounted volume gives OK or EIO, and nothing on EIO |
| StorageLfs.ExistsFs | sscma/porting/posix/ma_storage_lfs.cpp:290-316 | `exists` holds exactly when get succeeds or the key's path is a directory |
| StorageLfs.SetThenGetAsWritten | sscma/porting/posix/ma_storage_lfs.cpp:182-191 | For a key encoded in more than 16 characters, a successful set followed by get fails with EIO |
| StorageLfs.OverwriteKeepsTail | sscma/porting/posix/ma_storage_lfs.cpp:195-201 | Setting a shorter value over a longer one leaves get reading the new bytes followed by the old tail |
| StorageLfs.SetThenGet | sscma/porting/posix/ma_storage_lfs.cpp:171-253 | After a successful corrected set, get returns exactly the data and exists holds |
| StorageLfs.SetFailsOnlyOnDirectory | sscma/porting/posix/ma_storage_lfs.cpp:171-214 | The corrected set fails exactly when the key's path is a directory |
| StorageLfs.SetKeepsOtherKeys | sscma/porting/posix/ma_storage_lfs.cpp:171-214 | Setting one key changes what no other key reads |
| StorageLfs.LfsRemove | sscma/porting/posix/ma_storage_lfs.cpp:275-276 | A successful removal deletes that path's file if there is one, and adds no directory |
| StorageLfs.RemoveChainOnlyDeletes | sscma/porting/posix/ma_storage_lfs.cpp:274-285 | The removal loop only deletes: no directory is added and every remaining file keeps its content |
| StorageLfs.RemoveFs | sscma/porting/posix/ma_storage_lfs.cpp:255-288 | `remove` only deletes: no directory is added and every remaining file keeps its content |
| StorageLfs.RemoveDeletesKey | sscma/porting/posix/ma_storage_lfs.cpp:255-288 | After remove, exists and get no longer find the key, and every other file is unchanged |
| StorageLfs.DropLastComponent | sscma/porting/posix/ma_storage_lfs.cpp:283-284 | Trimming the last component and its '/' leaves the joined path of the remaining prefix |
| StorageLfs.BlockCount | sscma/porting/posix/ma_storage_lfs.cpp:66 | The block count fits in 32 bits and is zero for a device smaller than 4096 bytes |
| StorageLfs.MountSpec | sscma/porting/posix/ma_storage_lfs.cpp:55-122 | An empty mount point or a device under one block gives EINVAL; an already mounted store gives OK unchanged; OK holds iff the store ends mounted; a failure leaves the flag |
| StorageLfs.MountIdempotent | sscma/porting/posix/ma_storage_lfs.cpp:62-64 | After a successful mount, mounting again succeeds and changes nothing |
| StorageLfs.MountErasesOnlyWhenForced | sscma/porting/posix/ma_storage_lfs.cpp:105-113 | The volume is erased only by a forced mount of an unmountable volume that formats |
| StorageLfs.Store.constructor | sscma/porting/posix/ma_storage_lfs.cpp:36-44 | A new store over the given image mounts itself: it is mounted, over the volume the mount leaves, exactly as `MountSpec` says of an unmounted store, and stays unmounted when the mount fails |
| StorageLfs.Store.Mount | sscma/porting/posix/ma_storage_lfs.cpp:55-122 | The flag, volume and error after mount are the ones the mount specification gives |
| StorageLfs.Store.UMount | sscma/porting/posix/ma_storage_lfs.cpp:124-146 | Unmounting an unmounted store gives OK; otherwise OK iff unmount and destroy succeed; OK leaves it unmounted; the volume is untouched |
| StorageLfs.Store.BuildPath | sscma/porting/posix/ma_storage_lfs.cpp:227-231 | The loop builds "/p0/p1/.../pn" |
| StorageLfs.Store.Set | sscma/porting/posix/ma_storage_lfs.cpp:171-214 | An unmounted store gives EPERM and no change; a mounted one performs the corrected set (joined path, replacing write) |
| StorageLfs.Store.MakeParentDirs | sscma/porting/posix/ma_storage_lfs.cpp:182-190 | The mkdir loop, over the joined paths of the corrected set, creates every proper ancestor directory of the key's file |
| StorageLfs.Store.Get | sscma/porting/posix/ma_storage_lfs.cpp:216-253 | An unmounted store gives EPERM; otherwise the chunked read appends the whole file to the buffer, or gives EIO when there is none |
| StorageLfs.Store.Exists | sscma/porting/posix/ma_storage_lfs.cpp:290-316 | True iff the store is mounted and the key's path is a file or directory |
| StorageLfs.Store.Remove | sscma/porting/posix/ma_storage_lfs.cpp:255-288 | An unmounted store gives EPERM; otherwise the loop removes the file and then each parent, stopping at a missing or non-empty one |
| StorageLfs.Store.GetTyped | sscma/porting/posix/ma_storage_lfs.cpp:378-395 | The value is the stored bytes iff the read succeeds with exactly the type's size; otherwise it is the default, with EPERM when unmounted, the read's own error when the read fails, and EINVAL for a size mismatch |
| StorageLfs.Store.GetString | sscma/porting/posix/ma_storage_lfs.cpp:568-578 | The string getter appends the file on success; otherwise it returns the default, with EPERM when unmounted and the read's own error when the read fails |
| StorageLfs.Store.GetCString | sscma/porting/posix/ma_storage_lfs.cpp:580-582 | The char* getter always gives ENOTSUP |
| Osal.FromMicroseconds | sscma/porting/osal/ma_osal_pthread.cpp:32-34 | The result is a 32-bit value |
| Osal.FromMicrosecondsExactIff | sscma/porting/osal/ma_osal_pthread.cpp:32-34 | The conversion is exact iff us <= 4294967; beyond that it wraps modulo 2^32 |
| Osal.FromMilliseconds | sscma/porting/osal/ma_osal_pthread.cpp:36-38 | The result is a 32-bit value |
| Osal.FromMillisecondsWraps | sscma/porting/osal/ma_osal_pthread.cpp:36-38 | The conversion is exact iff ms <= 4294; 5000 ms comes out as 705032704 |
| Osal.SleepSplit | sscma/porting/osal/ma_osal_pthread.cpp:44-45 | The split has tv_nsec < 10^9 and tv_sec*10^9 + tv_nsec == tick |
| Osal.SleepSplitUnique | sscma/porting/osal/ma_osal_pthread.cpp:44-45 | The split is the only valid timespec with that length |
| Osal.CurrentAsWrittenNotMonotone | sscma/porting/osal/ma_osal_pthread.cpp:25-27 | As written, the later reading (1 s, 0 ns) gives a smaller tick than (0 s, 999999999 ns) |
| Osal.CurrentAsWritten | sscma/porting/osal/ma_osal_pthread.cpp:19-30 | The tick as written agrees with a microsecond reading only on a whole second |
| Osal.CurrentMonotone | sscma/porting/osal/ma_osal_pthread.cpp:20-30 | In nanoseconds, ticks order exactly as clock readings do, and sleep's split of a reading's tick is that reading |
| Osal.Current | sscma/porting/osal/ma_osal_pthread.cpp:19-30 | A valid reading is recovered exactly from its nanosecond tick |
| Osal.DeadlineAsWrittenSpec | sscma/porting/osal/ma_osal_pthread.cpp:172-181 | The deadline as written lies the timeout after now, and is an invalid timespec iff the nanoseconds sum to exactly 10^9 |
| Osal.DeadlineAsWrittenBoundary | sscma/porting/osal/ma_osal_pthread.cpp:177 | 1 ms after (s, 999000000 ns) gives tv_nsec == 10^9 |
| Osal.DeadlineAsWritten | sscma/porting/osal/ma_osal_pthread.cpp:172-181 | The deadline as written is never before now, its nanoseconds never exceed 10^9, and a zero timeout gives now |
| Osal.DeadlineSpec | sscma/porting/osal/ma_osal_pthread.cpp:172-181 | With the carry at 10^9, the deadline lies the timeout after now, is always valid, and equals the split of that total |
| Osal.Deadline | sscma/porting/osal/ma_osal_pthread.cpp:172-181 | The corrected deadline is never before now, and a zero timeout gives now |
| Osal.Semaphore.constructor | sscma/porting/osal/ma_osal_pthread.cpp:150-157 | A new semaphore holds the given count |
| Osal.Semaphore.Wait | sscma/porting/osal/ma_osal_pthread.cpp:169-200 | Succeeds iff the count was positive, and then decrements it; a timed-out wait leaves it |
| Osal.Semaphore.Signal | sscma/porting/osal/ma_osal_pthread.cpp:207-213 | Increments the count |
| Osal.SetBits | sscma/porting/osal/ma_osal_pthread.cpp:274-277 | Setting raises the given bits and leaves every other bit |
| Osal.ClearBits | sscma/porting/osal/ma_osal_pthread.cpp:269-272 | Clearing lowers exactly the given bits and leaves every other bit |
| Osal.ClearUndoesSet | sscma/porting/osal/ma_osal_pthread.cpp:269-277 | Clearing bits just set gives the same flags as clearing them without setting |
| Osal.SetClearIdempotent | sscma/porting/osal/ma_osal_pthread.cpp:269-277 | Setting, or clearing, the same bits twice is the same as once |
| Osal.Event.constructor | sscma/porting/osal/ma_osal_pthread.cpp:216-222 | A new event holds the flags it is given; the source's constructor sets none (see Left out) |
| Osal.Event.Set | sscma/porting/osal/ma_osal_pthread.cpp:274-277 | The flags become the old flags with the bits set |
| Osal.Event.Clear | sscma/porting/osal/ma_osal_pthread.cpp:269-272 | The flags become the old flags with the bits cleared |
| Osal.Event.Wait | sscma/porting/osal/ma_osal_pthread.cpp:233-266 | Succeeds iff a bit of the mask is raised, and then reports the non-zero value & mask |
| Osal.SlotNext | sscma/porting/osal/ma_osal_pthread.cpp:335 | Advancing a slot by one modulo size reaches the next slot of the ring |
| Osal.SlotOfIsMod | sscma/porting/osal/ma_osal_pthread.cpp:370 | The slot of the i-th oldest message is (r + i) % size, the remainder the program keeps w at |
| Osal.SlotShift | sscma/porting/osal/ma_osal_pthread.cpp:335 | After r advances one slot, every later message's slot is unchanged |
| Osal.SlotsDistinct | sscma/porting/osal/ma_osal_pthread.cpp:368 | Fewer than size messages occupy distinct slots, so a post overwrites none of them |
| Osal.MessageBox.constructor | sscma/porting/osal/ma_osal_pthread.cpp:284-294 | A new box is empty, with r == w == count == 0 and the ring invariant |
| Osal.MessageBox.Fetch | sscma/porting/osal/ma_osal_pthread.cpp:305-337 | Succeeds iff the box held a message, returns the oldest one and removes it (FIFO), and keeps count <= size and w == (r + count) % size (`SlotOfIsMod` equates the ring's slot function with that remainder) |
| Osal.MessageBox.Post | sscma/porting/osal/ma_osal_pthread.cpp:340-374 | Succeeds iff the box was not full, appends the message as the newest, and keeps the ring invariant with w == (r + count) % size |
| ContentsExport.NewCapacity | sscma/callback/extension/contents_export.hpp:28-41 | The bytes always fit and the capacity stays within the trigger of the size; a first cache gets size + trigger/2; the capacity changes only on reallocation |
| ContentsExport.CapacityStable | sscma/callback/extension/contents_export.hpp:34 | Caching the same size again does not reallocate |
| ContentsExport.CacheAsWrittenSafeIff | sscma/callback/extension/contents_export.hpp:27-47 | As written, the copy lands in a live buffer large enough, and the state stays coherent, iff no reallocation happens or there was no buffer |
| ContentsExport.CacheAsWrittenGrowthOverruns | sscma/callback/extension/contents_export.hpp:35-44 | Caching 10 then 6000 bytes copies 6000 bytes into the freed 5130-byte buffer while the size reads 11120 |
| ContentsExport.CacheAsWritten | sscma/callback/extension/contents_export.hpp:27-47 | As written, the recorded size follows the capacity policy, but after a reallocation the member still points at the deleted buffer |
| ContentsExport.Decimal | sscma/callback/extension/contents_export.hpp:127 | to_string gives a non-empty digit string with no leading zero except for 0 itself |
| ContentsExport.DigitsValueDecimal | sscma/callback/extension/contents_export.hpp:127 | The digits of to_string(n) have the value n |
| ContentsExport.DecimalLength | sscma/callback/extension/contents_export.hpp:157 | A number below 10^k takes at most k digits |
| ContentsExport.SkipSpace | sscma/callback/extension/contents_export.hpp:141 | atoi's blank skipping leaves a suffix that starts with a non-blank |
| ContentsExport.LeadingDigits | sscma/callback/extension/contents_export.hpp:141 | atoi reads the longest prefix of digits |
| ContentsExport.Atoi | sscma/callback/extension/contents_export.hpp:141 | atoi is negative only for text whose first non-blank is '-' |
| ContentsExport.AtoiDecimal | sscma/callback/extension/contents_export.hpp:127-141 | atoi reads back what to_string wrote |
| ContentsExport.InfoTerminatorInBoundsIff | sscma/callback/extension/contents_export.hpp:137-140 | As written, the terminator index is inside the 64-byte buffer iff the info file is shorter than 64 bytes |
| ContentsExport.InfoReadAsWritten | sscma/callback/extension/contents_export.hpp:137-139 | As written, the read takes at most the file and at most 64 bytes, and exactly 64 from a file of 64 bytes or more |
| ContentsExport.InfoRead | sscma/callback/extension/contents_export.hpp:137-140 | Reading at most 63 bytes keeps the terminator in the buffer, and reads short files as before |
| ContentsExport.NextId | sscma/callback/extension/contents_export.hpp:141 | The next id is a `size_t`: below 2^64, one more than a stored id below 2^64 - 1, and 0 after a stored -1 |
| ContentsExport.NextIdOfShort | sscma/callback/extension/contents_export.hpp:141 | A short info file holding v yields the id v + 1 |
| ContentsExport.NextIdAfterDecimal | sscma/callback/extension/contents_export.hpp:127-141 | Reading back an id the program wrote gives the next id |
| ContentsExport.InitSpec | sscma/callback/extension/contents_export.hpp:78-180 | One set-up call spends at most one retry; Ready leaves the filesystem marked ready, a missing driver leaves it unready, and any later failure leaves it marked ready |
| ContentsExport.InitRetryRule | sscma/callback/extension/contents_export.hpp:79-88 | A finished set-up returns true and changes nothing; otherwise a positive budget is spent by one, and a spent budget fails without change |
| ContentsExport.InitReadyPath | sscma/callback/extension/contents_export.hpp:104-177 | A fresh successful set-up leaves the path `<device> Export/<id>/`, where id is 0 for a new info file and the stored id + 1 otherwise |
| ContentsExport.ExportIdsAdvance | sscma/callback/extension/contents_export.hpp:117-165 | The info file one export leaves numbers the next export one higher |
| ContentsExport.ProbesWithinBudget | sscma/callback/extension/contents_export.hpp:18 | Over any run of commits, the filesystem is probed no more often than the constructor's retry budget |
| ContentsExport.CommitSpec | sscma/callback/extension/contents_export.hpp:49-75 | A commit succeeds exactly when it names a file, success leaves the filesystem ready, and at most one retry is spent |
| ContentsExport.CommitPath | sscma/callback/extension/contents_export.hpp:49-75 | A successful first commit writes `<device> Export/<id>/<name>`, and later commits keep that state |
| ContentsExport.Exporter.constructor | sscma/callback/extension/contents_export.hpp:18 | A new exporter has the retry budget, no filesystem, an empty path and no buffer |
| ContentsExport.Exporter.Cache | sscma/callback/extension/contents_export.hpp:27-47 | The corrected cache (new buffer stored in the member) holds exactly the content in a buffer of the capacity the policy gives, fresh iff reallocated |
| ContentsExport.Exporter.InitFilesystem | sscma/callback/extension/contents_export.hpp:78-180 | The step-by-step set-up, reading at most 63 bytes of the info file, gives the result and state the set-up specification defines, and leaves the buffer alone |
| ContentsExport.Exporter.Commit | sscma/callback/extension/contents_export.hpp:49-75 | Commit gives the outcome and state the commit specification defines, writing the cached bytes to path + name |
| MaTypes.CountChar | sscma/server/at/ma_server_at.cpp:24 | The count is at most the length, and zero iff the character is absent |
| MaTypes.CountCharAppend | sscma/server/at/ma_server_at.cpp:24 | Counts add over concatenation |

## Left out

- The inference engine itself: it is represented only by tensor shapes, element type, quantisation and raw data.
- Fomo.Score: the float product `(raw - zero_point) * 100 * scale` is computed on reals, without float rounding.
- Fomo.FomoModel.PostProcessI8: boxes keep pixel coordinates (cell centre and span). The division by the image width and height at lines 116-119 is left out, because the type of the image size is not known here.
- Fomo.FomoModel.PostProcessI8: the method requires an engine that passed `isValid` and a tensor holding H*W*T values, which its callers ensure. Arbitrary shapes would make the source read out of bounds.
- AT server:
  - `threadEntry`'s receive loop, `init`'s registration of the built-in services, `executor->submit`, the callback bodies, and the encoder and transport messages are not modelled.
  - Callbacks are opaque indices; only YIELD's declaration is used, in a lemma.
- AtServer.ATServer.Execute: applies the corrected arity check.
  - The check as written is modelled by `ExecuteSpec` and the lemmas about it.
- AtServer.ATServer.DispatchLine: applies the corrected arity check (every declared argument required, an empty spec meaning none) instead of line 329's `argv.size() < argc`; the check as written is `DispatchResolved`, and `DispatchLine` promises to agree with it only for services that declare arguments.
- Storage:
  - The mutex `Guard`s are not modelled.
  - The volume is flat: a file does not need its parent directory to exist.
  - A directory counts as empty when no stored path starts with it followed by '/'.
  - The `reinterpret_cast` of the typed getters is not modelled; a typed value is its byte sequence.
- StorageLfs.Store.Set: performs the corrected set, `SetFs`: joined paths and a replacing write. The source's glued paths and non-truncating open are `SetFsAsWritten`, `SetPathAsWritten`, `SetDirsAsWritten` and `WriteAsWritten`.
- StorageLfs.Store.MakeParentDirs: creates the joined ancestors `SetDirs` of the corrected set; the source's loop (lines 183-190) creates the glued prefixes `SetDirsAsWritten`.
- StorageLfs.WriteReplacing: the corrected write, with truncation; the open at line 195 does not truncate, which is `WriteAsWritten`.
- StorageLfs.Store.Set: littlefs failures other than opening a directory are not modelled: mkdir errors, short writes, close errors and a full volume.
- StorageLfs.Store.Get: read errors from `lfs_file_read` are not modelled.
- StorageLfs.Store.Get: `getImpl` opens the file (line 235) and returns at lines 247 and 252 without `lfs_file_close`, leaving the handle registered with littlefs; the volume model has no open handles, so neither the missing close nor the handle it leaves is modelled. `setImpl`'s short-write return at line 204 likewise skips the close at line 207.
- StorageLfs.Store.Remove: `lfs_remove` errors other than NOENT and NOTEMPTY (which the source turns into EIO) are not modelled.
- StorageLfs.Store.constructor: models the default build, which mounts in the constructor; `mount()`'s default argument is in a header that is not part of this model, so `force` is a parameter. The `MA_STORAGE_NO_AUTO_MOUNT` build's constructor leaves the store unmounted, which is this constructor without its `Mount` call. The destructor's automatic `uMount()` (lines 46-53) is not modelled, since the model has no destruction; it is a call of `UMount`.
- StorageLfs.Store.Mount: the block-device and filesystem configuration values are not modelled, only the outcome of each call.
- OSAL:
  - Thread creation, condition variables, mutexes and `clock_gettime` are not modelled.
  - Blocking is replaced by preconditions and immediate timeouts.
  - The commented-out `Timer` is not modelled.
  - The concrete value of `Tick::waitForever` is abstracted as `Forever`.
- Osal.Semaphore.Signal: the count is unbounded; `uint32_t` wrap-around after 2^32 signals is not modelled.
- Osal.Event.constructor: takes the initial flags as a parameter. The source's `Event::Event()` (lines 216-222) takes none and sets no flags; the value member's initialiser is in a header that is not part of this model.
- Osal.Event.Wait: the `value == nullptr` case is not modelled; the reported value is always returned.
- Osal.MessageBox.constructor: allocates the slot array of `size` messages. The source's constructor (lines 284-294) allocates nothing; the storage behind `m_mbox` is declared in a header that is not part of this model. A box of size 0 is modelled: it holds nothing, and a timed post or fetch on it fails, as the source's timed wait does.
- Osal.DeadlineAsWritten: the deadline is computed as a value. Passing an invalid deadline to `pthread_cond_timedwait` is stated as the invalid timespec it produces.
- ContentsExport:
  - The Extfs calls are outcomes in `InitIo`/`CommitIo`.
  - The `printf` logging and the callback messages are not modelled.
  - `PORT_DEVICE_NAME` is a parameter.
  - The write of a new info file is not checked by the source, and is not modelled as able to fail.
- ContentsExport.Exporter.Cache: stores the new buffer in the member; the source's line 36 binds it to a shadowing local, which is `CacheAsWritten`.
- ContentsExport.Exporter.InitFilesystem: reads at most 63 bytes of the info file (`InfoRead`, through `NextId`), where line 139 reads up to 64 (`InfoReadAsWritten`) and then writes the terminator past a full buffer.
- ContentsExport.InfoWritten: the info file's rewrite prints the `size_t` id with "%ld" (line 156), which prints ids of 2^63 or more as negative numbers; the model states the file's contents only as the decimal id.
- ContentsExport.Exporter.Cache: a failed allocation (`new` returning null) and `size_t` wrap-around of `size + realloc_trigger` are not modelled.
- ContentsExport.Atoi: overflow, undefined in C, is not modelled; the value is the unbounded integer.
- ContentsExport.NextIdAfterDecimal: holds for ids below 2^31 - 1, the range the `int` of `atoi` can return.

## Findings

| source | as written | input that shows it | evidently intended | confidence | as-written member | corrected member |
|---|---|---|---|---|---|---|
| sscma/server/at/ma_server_at.cpp:329 | `argv.size() < it->argc` counts the command name, which `argv` also holds | `AT+YIELD` with no arguments: YIELD declares one argument (`TIME_S`), yet is dispatched with `argv == ["YIELD"]`, and its callback reads `args[1]` (line 160) | every declared argument present, with an empty spec meaning no argument | high; not executed | AtServer.YieldDispatchedWithoutArgument | AtServer.IntendedArityExact |
| sscma/porting/posix/ma_storage_lfs.cpp:182-191 | `setImpl` glues the components with no '/' | any key of 16 verbatim characters: `set` writes "/p0p1" and `get` opens "/p0/p1" | the joined path `getImpl`, `exists` and `remove` use | high; not executed | StorageLfs.LongPlainKeySplits | StorageLfs.SetThenGet |
| sscma/porting/posix/ma_storage_lfs.cpp:195 | the file is opened without `LFS_O_TRUNC` | setting a 1-byte value over a 4-byte one: `get` reads 4 bytes and the typed get returns the default with EINVAL | the file holds exactly the new value | medium; not executed | StorageLfs.OverwriteKeepsTail | StorageLfs.SetThenGet |
| sscma/porting/osal/ma_osal_pthread.cpp:177 | carry only when `nsec > 10^9` | now = (s, 999000000 ns), timeout 1 ms: `tv_nsec == 10^9`, an invalid timespec for `pthread_cond_timedwait` | carry when `nsec >= 10^9` | high; not executed | Osal.DeadlineAsWrittenBoundary | Osal.DeadlineSpec |
| sscma/porting/osal/ma_osal_pthread.cpp:25-27 | seconds scaled by 10^6 but nanoseconds added unscaled | readings (0 s, 999999999 ns) then (1 s, 0 ns) give ticks 999999999 then 1000000 | nanoseconds throughout, as `sleep` (lines 44-45) and `fromMicroseconds` use | medium; not executed | Osal.CurrentAsWrittenNotMonotone | Osal.CurrentMonotone |
| sscma/callback/extension/contents_export.hpp:35-44 | the new buffer goes to a local that shadows the member `_data` | cache 10 bytes, then 6000 bytes (trigger 10240): the copy writes 6000 bytes into the freed 5130-byte buffer | store the new buffer in the member | high; not executed | ContentsExport.CacheAsWrittenGrowthOverruns | ContentsExport.Exporter.Cache |
| sscma/callback/extension/contents_export.hpp:137-140 | up to `sizeof(buffer)` (64) bytes are read, then `buffer[read] = '\0'` | an info file of 64 bytes or more: the terminator is written at index 64, past the buffer | read at most 63 bytes | medium; not executed | ContentsExport.InfoTerminatorInBoundsIff | ContentsExport.InfoRead |
