# meanp core in Dafny

meanp is a DLL that patches bytes in a running Windows process. Patch files
hold one patch per line:

    <target> <offset> <on-bytes> [<off-bytes>]

The target is a module name, `<host>`, or `-` (an absolute address). The
offset is hex: relative to the module's image base, or a file offset when it
starts with `f+`/`F+`. The on-bytes are the replacement (`-` for none); the
off-bytes are the bytes expected before writing.

This project models three pieces of the program:

- **Parser** (`core/parser.cpp`, `core/error_handler.cpp`). One line becomes
  a `patch_t` or one of the nine `parser_errors`. `read_file` folds that over
  a file's lines.
- **Patcher** (`core/patcher.cpp`, `core/c_protection_guard.hpp`). It
  resolves the patch address: absolute, base-relative, or a file offset
  translated through the PE section table. It checks the expected bytes,
  accepting an "already applied" state, and writes under a page-protection
  guard.
- **Load coordinator** (`core/hooks.cpp`). It keeps a list of pending
  patches. The startup pass applies what it can and registers for loader
  notifications. Each load event applies the patches for that module. When
  nothing is pending, it requests the unload.

It also models the pure helpers of `utils/utils.cpp`: the hex dump, the
config-file line rules, `load_all` and `resolve_dll_imports`.

Modules, one per source file:

- `Prelude`: bytes, `DWORD`s, `Option`, `Result`.
- `CharConv`: `std::from_chars` base 16, and `std::format` with `{:X}` and
  `{:02X}`.
- `ErrorHandler`
- `Parser`
- `LineSyntax`: the grammar written out, as the inverse of `read_line`.
- `PeImage`
- `ProtectionGuard`
- `Patcher`
- `Utils`
- `Hooks`

How things are represented:

- Addresses are `nat`, and 0 stands for `nullptr`.
- Memory is a partial map from address to byte, plus a per-page protection
  table.
- The loader, `GetModuleHandle*`, `GetProcAddress` and `VirtualProtect` are
  oracle parameters.
- The coordinator is generic over the process state `W`. `c_patcher::apply`
  is an oracle `(W, base, patch) -> (ok, W)`. `Patcher.Apply` models one
  call of it on a memory image, where a fault in the copy is a third
  outcome besides success and failure.

Three behaviours of the code that a reader might not expect:

- Completion requests the unload but does not unregister the notification
  callback (`core/hooks.cpp:129-150`). `Hooks.CheckCompletion` and
  `Hooks.UnloadAtMostOnce` state this.
- Only the first character of each data pair is checked for a hex digit.
  A second character that is not one ends the number early, so `A?` reads
  as `0x0A` and `1G` as `0x01` (`core/parser.cpp:64-71`).
  `Parser.ReadData` and `Parser.PairDecodes` state this.
- Off-bytes have no `-` shorthand. A fourth token `-` is read as off-bytes
  of odd length and rejected with `BadDataLength`, so a line such as
  `"kernel32.dll" f+1A0 9090 -` does not parse
  (`LineSyntax.DashOffBytesRejected`). A patch for a module that loads
  later is stated on already-built patches in `Hooks.DeferredUntilLoaded`.

## Model

| member | source | states |
|---|---|---|
| `ErrorHandler.Code` | core/error_handler.hpp:8-19 | The nine enumerators are the consecutive integers 1..9. |
| `ErrorHandler.FromCode` | core/error_handler.hpp:8-19 | An integer names an enumerator exactly when it lies in 1..9. That enumerator's code is the integer. |
| `ErrorHandler.CodeRoundTrip` | core/error_handler.hpp:10-18 | Turning an enumerator into its integer and back gives the same enumerator. |
| `ErrorHandler.CodesInjective` | core/error_handler.hpp:10-18 | Distinct enumerators have distinct integers. |
| `ErrorHandler.Message` | core/error_handler.cpp:8-23 | Every message is non-empty. The message is "unknown parser error" exactly for integers outside the enumerators. |
| `ErrorHandler.MessagesDistinct` | core/error_handler.cpp:12-20 | The nine messages are pairwise distinct. |
| `ErrorHandler.MakeErrorCode` | core/error_handler.cpp:25-29 | The code keeps the enumerator's integer, which decodes back to it. Its category is "meanp_parser". Its message is never the unknown-error text. |
| `CharConv.FromCharsHex` | core/parser.cpp:51 | `from_chars` base 16 fails with `invalid_argument`, consuming nothing, exactly when the input does not start with a hex digit. Otherwise it reads the maximal run of hex digits: it succeeds exactly when their value is below the limit, and then stops after the run with that value; else the error is `result_out_of_range`. |
| `CharConv.FormatUpperHex` | core/parser.cpp:20-21 | `{:X}` gives upper-case digits with no leading zero, and they read back to the number. |
| `CharConv.FormatByte` | utils/utils.cpp:160 | `{:02X}` gives exactly two upper-case digits whose value is the byte. |
| `Parser.SplitOn` | core/parser.cpp:93-95 | Splitting on one character gives pieces that do not contain it. Joining them with it gives back the input. |
| `LineSyntax.SplitOnJoin` | core/parser.cpp:93-95 | Splitting the joined pieces gives back the pieces, when no piece contains the delimiter. |
| `Parser.DropEmpty` | core/parser.cpp:96 | The kept pieces are exactly the non-empty ones. |
| `Parser.Arguments` | core/parser.cpp:93-97 | Arguments are non-empty and contain no space. |
| `LineSyntax.DropEmptyKeeps` | core/parser.cpp:96 | Dropping empty pieces from a list that has none changes nothing. |
| `Parser.TypeName` | core/parser.cpp:6-15 | Each address kind has a non-empty label. |
| `Parser.TypeNamesDistinct` | core/parser.cpp:8-13 | Distinct kinds have distinct labels. |
| `Parser.TargetName` | core/parser.cpp:17-22 | The text ends in `0x` and the address in `{:X}` digits, which read back to the address. A non-absolute patch's text starts with the quoted target. |
| `Parser.ReadTarget` | core/parser.cpp:24-38 | A quoted target runs to the next `"`; if there is none, the error is the unclosed quote. A bare target runs to the first space; if there is none, the error is too few arguments. The rest of the line starts one past the terminator. |
| `LineSyntax.QuotedLineSplits` | core/parser.cpp:24-38 | On a quoted line the target reads back exactly, and the arguments are exactly the tokens that follow. |
| `LineSyntax.QuotedTarget` | core/parser.cpp:24-38 | A quoted target is read up to its closing quote. The rest of the line is a space followed by the joined tokens. |
| `LineSyntax.SpacedArguments` | core/parser.cpp:93-97 | A space followed by space-joined tokens splits back into exactly those tokens. |
| `Parser.ReadOffset` | core/parser.cpp:40-55 | Success exactly when the digits are non-empty, all hex, and fit in a `uintptr_t`; any failure is `BadOffsetAddress`. The value is the digits' hex value. The kind is `file` exactly with the `f+`/`F+` prefix, and never `absolute`. |
| `LineSyntax.ReadOffsetPlain` | core/parser.cpp:40-55 | Hex digits without the prefix read as an RVA of their value. |
| `LineSyntax.ReadOffsetFile` | core/parser.cpp:42-46 | `F+` followed by hex digits reads as a file offset of their value. |
| `LineSyntax.ReadOffsetText` | core/parser.cpp:40-55 | The offset token written for a patch reads back as the patch's address and kind. |
| `Parser.PairDecodes` | core/parser.cpp:64-71 | A pair whose first character is a hex digit decodes without error. Its value is both digits, or only the first when the second is not a digit. |
| `Parser.DecodePairs` | core/parser.cpp:64-73 | The pair loop succeeds exactly when every pair starts with a hex digit; otherwise the error is `BadDataBytes`. Byte i comes from characters 2i and 2i+1. |
| `Parser.ReadData` | core/parser.cpp:57-74 | Odd length gives `BadDataLength`. Even length succeeds exactly when every pair starts with a hex digit, and fails with `BadDataBytes` otherwise. The result has half the length, and byte i comes from characters 2i and 2i+1. |
| `Parser.ReadDataEncodeHex` | core/parser.cpp:57-74 | Decoding the two-digit encoding of any byte sequence gives the sequence back. |
| `Parser.ReadLine` | core/parser.cpp:76-134 | `LineEmpty` exactly for empty lines, lines with `#` in column 0, and lines of only spaces and tabs. Target errors pass through. Fewer than 2 arguments gives `InsufficientArgs`; more than 3 gives `TooManyArgs`. A parsed patch is well formed: it writes or checks something, it is absolute exactly for target `-`, and its address fits in a `uintptr_t`. |
| `LineSyntax.ReadLineSerialize` | core/parser.cpp:76-134 | Writing a patch as a quoted line and parsing it gives the patch back. With no bytes at all the result is `InsufficientArgs`. |
| `LineSyntax.DashOffBytesRejected` | core/parser.cpp:122-128 | Off-bytes have no `-` shorthand: a fourth token `-` gives `BadDataLength`. |
| `LineSyntax.ArgumentCountRejected` | core/parser.cpp:99-102 | Four tokens after the target give `TooManyArgs`. An offset alone gives `InsufficientArgs`. |
| `Parser.ReadLines` | core/parser.cpp:151-167 | The loop succeeds exactly when every line parses or is skipped. Otherwise it reports the first line that is neither, with its 1-based number and its error, which is never `LineEmpty`. |
| `Parser.ReadLinesStamped` | core/parser.cpp:151-167 | Each result comes from the parse of the line its 1-based number names, stamped with that number and the file name. Results are in line order, and every line that parses yields one. |
| `Parser.ReadFile` | core/parser.cpp:137-170 | A missing file gives `FileNotFound` at line 0, and one that cannot be opened gives `FileOpenFail` at line 0. Otherwise the result is the line loop's, as described for `Parser.ReadLines`. |
| `Parser.ReadFileStamped` | core/parser.cpp:161-165 | Every patch read from a file is well formed and carries the file's name. |
| `PeImage.ContainsWithoutWrap` | core/patcher.cpp:52-53 | When the 32-bit sum `PointerToRawData + SizeOfRawData` does not wrap, a section holds exactly its raw byte range. |
| `PeImage.FirstSectionFrom` | core/patcher.cpp:50-57 | The section loop finds the first section in table order whose raw range holds the offset, or reports that none does. |
| `PeImage.FileOffsetToPtr` | core/patcher.cpp:35-60 | A bad DOS or NT signature gives null. An offset below section 0's raw data maps to `base + offset`. Otherwise the first matching section gives `base + VirtualAddress + (offset - PointerToRawData)`, and no match gives null. |
| `PeImage.FileOffsetRelocates` | core/patcher.cpp:47-59 | Moving the image moves every translated address by the same amount. A failed translation fails wherever the image is. |
| `ProtectionGuard.VirtualProtect` | core/c_protection_guard.hpp:13-14 | On success every page of the range gets the new protection, and the reported old value is the first page's. Pages outside the range never change. On failure nothing changes. |
| `ProtectionGuard.Acquire` | core/c_protection_guard.hpp:9-15 | `ok` is exactly whether the change was granted, and the guard keeps the address and size. If granted, every page of `[address, address+size)` is `PAGE_EXECUTE_READWRITE` and the saved old protection is the first page's; if not, nothing changed. Pages outside the range never change. |
| `ProtectionGuard.Release` | core/c_protection_guard.hpp:17-24 | A guard that was not granted changes nothing. Otherwise every page of its range gets the single saved protection, and pages outside the range keep theirs. |
| `ProtectionGuard.RestoredSameIffUniform` | core/c_protection_guard.hpp:13-22 | When every page of a range is set to the first page's old protection, the table comes back as it was exactly when all pages of the range had the same protection. |
| `ProtectionGuard.GuardScopeAsWritten` | core/c_protection_guard.hpp:17-24 | After a scope of the guard as written, pages outside the range are unchanged. A failed acquisition changes nothing. Every page of the range ends with the first page's old protection, so the table comes back exactly when the range was uniformly protected. |
| `ProtectionGuard.GuardWidensProtection` | core/c_protection_guard.hpp:17-24 | A two-byte write across an execute-read page and a read-only page leaves the read-only page executable. |
| `ProtectionGuard.AcquirePages` | core/c_protection_guard.hpp:9-15 | As `Acquire`, while keeping every page's own old protection. |
| `ProtectionGuard.PageGuardRestores` | core/c_protection_guard.hpp:17-24 | A scope of the per-page guard leaves every page's protection as it found it. |
| `Patcher.ResolveAddress` | core/patcher.cpp:62-83 | An absolute patch gives its literal address. An RVA patch gives `base + address`, non-null whenever the base is. A file-offset patch gives the PE translation of its offset against the base. |
| `Patcher.ResolveRelocates` | core/patcher.cpp:62-83 | An absolute patch resolves to its literal address wherever the module is. RVA and file-offset patches move with the module base. |
| `Patcher.BytesAt` | core/patcher.cpp:96 | The byte-wise comparison holds exactly when the live bytes equal the expected sequence. |
| `Patcher.CompareData` | core/patcher.cpp:91-129 | True exactly when the live bytes are the off-bytes, or the on-bytes are non-empty and already in place. |
| `Patcher.Copy` | core/patcher.cpp:141 | The range holds the new bytes. Every other address keeps its byte and its readability. |
| `Patcher.Store` | core/patcher.cpp:141 | The copy faults exactly when some page of the range is not writable. Otherwise the range holds the new bytes, every other byte is kept, and protection is untouched. |
| `Patcher.WriteData` | core/patcher.cpp:131-152 | As written, the guard lives only in the `if` statement, so the copy runs after it is released. When protection cannot be changed, it fails and memory is unchanged. Otherwise the copy faults exactly when the first page's old protection is not writable; if it does not, the range holds `on`, every other byte is kept, every page of the range ends with the first page's old protection, and the table is as before exactly when the range was uniformly protected. |
| `Patcher.WriteDataFaultsOnCode` | core/patcher.cpp:133-141 | A one-byte patch into a `PAGE_EXECUTE_READ` page faults as written, and succeeds when the guard is held across the copy. |
| `Patcher.WriteDataGuarded` | core/patcher.cpp:131-152 | With a per-page guard held across the copy, the write never faults. It succeeds exactly when the protection change is granted; then the range holds `on` and every other byte is kept, and in every case each page's protection is as before. |
| `Patcher.Apply` | core/patcher.cpp:13-32 | A null address fails with no change. Bytes matching neither side fail with no change. A patch with no `on` succeeds with no change. Otherwise it is the write as written: it fails with no change when protection cannot be changed, faults exactly when the first page's old protection is not writable, and otherwise succeeds with the range holding `on` and the range's pages set to the first page's old protection. |
| `Patcher.WrittenSame` | core/patcher.cpp:99-100 | Writing bytes that are already in place changes no byte. |
| `Patcher.ApplyIdempotent` | core/patcher.cpp:19-31 | After a successful apply, applying the same patch again does not fault, succeeds whenever the write is allowed, and leaves every byte as it is. |
| `Utils.FormatHex` | utils/utils.cpp:152-164 | Empty data gives `""`. Otherwise the result has `3n-1` characters: two upper-case digits per byte, with single spaces between. |
| `Utils.FormatHexStripped` | utils/utils.cpp:152-164 | With the spaces removed, the hex dump is the two-digit encoding the parser reads. |
| `Utils.FormatHexReadsBack` | utils/utils.cpp:152-164 | `read_data` decodes a hex dump with its spaces removed back to the bytes. |
| `Utils.FirstNonBlank` | utils/utils.cpp:67 | `find_first_not_of(" \t")`: the first position that is not a space or tab, or `npos` when there is none. |
| `Utils.LastNonTrailing` | utils/utils.cpp:68 | `find_last_not_of(" \t\r\n")`: the last position that is not a space, tab, CR or LF, or `npos` when there is none. |
| `Utils.ConfigEntry` | utils/utils.cpp:64-72 | A line names no path exactly when it is empty, starts with `#` or `;`, or is all spaces and tabs. A named path is a prefix of the line from its first non-blank character. |
| `Utils.ConfigEntryTrims` | utils/utils.cpp:64-72 | A line names no path exactly when it is empty, starts with `#` or `;`, or is all spaces and tabs. Otherwise, if it has a character other than space, tab, CR or LF, the path runs from the first non-blank to the last non-trailing character. |
| `Utils.ConfigEntryLineBreakOnly` | utils/utils.cpp:67-72 | When the only non-blank characters are CR or LF, `end - start + 1` wraps in `size_t`. The path is empty if the line starts with one of them, and the rest of the line otherwise. |
| `Utils.CollectLines` | utils/utils.cpp:61-81 | A path is collected exactly when some line names it and it exists. |
| `Utils.CollectLinesAppend` | utils/utils.cpp:61-81 | The paths of two consecutive parts of the file come out one after the other, so file order is kept. |
| `Utils.CollectLinesSingle` | utils/utils.cpp:64-79 | No lines give no paths. One line gives its path when it names one that exists, and nothing otherwise. |
| `Utils.CollectFilesFromConfig` | utils/utils.cpp:45-84 | A missing or unopenable config file gives no paths. Otherwise a path is returned exactly when a line names it and it exists. |
| `Utils.LoadAll` | utils/utils.cpp:100-127 | The result is missing exactly when some file fails to read or parse. |
| `Utils.LoadAllAppend` | utils/utils.cpp:104-126 | Loading a concatenation of file lists gives the concatenated patches, and fails when either part fails. |
| `Utils.LoadAllSingle` | utils/utils.cpp:104-126 | No files load to no patches. One file loads to exactly its patches when it reads and parses, and fails otherwise. |
| `Utils.LoadAllWellFormed` | utils/utils.cpp:104-126 | Every loaded patch is well formed and carries the name of one of the files. |
| `Utils.ResolveNames` | utils/utils.cpp:209-220 | The lookup succeeds exactly when every name resolves. It then has one entry per requested name, each with its export's address. |
| `Utils.ResolveDllImports` | utils/utils.cpp:193-223 | All or nothing: a missing module or any missing export gives an empty map. Otherwise the keys are exactly the requested names, mapped to non-null addresses. |
| `Hooks.NewManager` | core/hooks.cpp:20-27 | A new manager holds the given patches as pending, with no cookie, no loader exports, no unload request and no unregister call. |
| `Hooks.ResolveModuleBase` | core/hooks.cpp:173-186 | Target `-` gives null, `<host>` gives the host image's base, and any other target gives its module's base as the loader reports it. |
| `Hooks.TryApplyLoaded` | core/hooks.cpp:188-219 | A patch is deferred exactly when its target is not `-` and its module is not loaded. Target `-` is applied at once with a null base. `<host>` uses the host image's base, and any other target uses its module's base. |
| `Hooks.StartupPass` | core/hooks.cpp:239-256 | A completed pass keeps exactly the deferred patches, in list order: those whose module is not loaded yet. A failed pass names the index of a patch that was not deferred. |
| `Hooks.StartupPassStopsAtFailure` | core/hooks.cpp:241-250 | A failed pass stops at the patch it names: the pass over the patches before it completes, and applying that patch in the resulting state fails. |
| `Hooks.StartupPassAppliedEach` | core/hooks.cpp:241-253 | In a completed pass, every patch is either deferred or applied successfully in the state the earlier patches left. |
| `Hooks.RegisterNotification` | core/hooks.cpp:34-48 | Registration succeeds exactly when ntdll is loaded, both exports resolve and the status is a success. It then stores the loader's cookie and the unregister export. The pending list is untouched. |
| `Hooks.CheckCompletion` | core/hooks.cpp:129-150 | One unload request when nothing is pending and an unload callback exists. Nothing else changes; in particular it does not unregister. |
| `Hooks.Place` | core/hooks.cpp:232-265 | A failed application returns false with the manager untouched. Otherwise the deferred patches stay pending. With none left, it completes and succeeds without registering; else its result is the registration's. |
| `Hooks.PlaceKeepsNoAbsolute` | core/hooks.cpp:239-256 | No patch left pending after a completed pass has target `-`. |
| `Hooks.StartupPassSucceeds` | core/hooks.cpp:241-253 | When every application succeeds, the startup pass completes. |
| `Hooks.PlaceAllImmediate` | core/hooks.cpp:258-262 | When every patch resolves at once and applies, `place` succeeds and empties the list. It never registers and requests the unload once. |
| `Hooks.Sweep` | core/hooks.cpp:106-124 | The loop stops at a patch for the module, or at the end of the list. The kept list is the patches before the stopping point that name another module, followed, in order, by the stopping patch and everything after it. |
| `Hooks.SweepStopsAtFailure` | core/hooks.cpp:110-118 | A sweep that stops early stops at a patch for the module whose application failed, in the state the earlier patches left. |
| `Hooks.SweepAppliedBefore` | core/hooks.cpp:110-120 | Every patch for the module before the stopping point was applied successfully in the state the earlier patches left. |
| `Hooks.SweepSucceeds` | core/hooks.cpp:110-121 | When every application succeeds, the sweep removes exactly the module's patches. |
| `Hooks.OtherTargetsLength` | core/hooks.cpp:123-124 | The patches kept for other modules are exactly those that name another module, and there are no more of them than before. |
| `Hooks.ApplyPatchesForModule` | core/hooks.cpp:106-127 | The new pending list is the patches before the stopping point that name another module, followed by everything from it on. Nothing else in the manager changes, except one unload request exactly when the new list is empty and an unload callback exists. |
| `Hooks.ModulePassKeepsOthers` | core/hooks.cpp:110-124 | A load event's pass keeps every pending patch that names another module. |
| `Hooks.OnDllLoaded` | core/hooks.cpp:87-104 | Nothing happens unless some pending patch names the module exactly (case-sensitive). |
| `Hooks.DllNotification` | core/hooks.cpp:153-171 | Events other than "loaded" with a context, and modules no pending patch names, are no-ops. No event unregisters or grows the pending list. |
| `Hooks.EmptyIgnoresEvents` | core/hooks.cpp:91-97 | With nothing pending, every load event is a no-op. |
| `Hooks.EventKeepsUnloadOnce` | core/hooks.cpp:129-150 | An event keeps the rule "at most one unload request, and only once nothing is pending". |
| `Hooks.RunKeepsUnloadOnce` | core/hooks.cpp:129-150 | Any sequence of events keeps that rule and leaves the cookie alone. |
| `Hooks.UnloadAtMostOnce` | core/hooks.cpp:129-150 | From a new manager, `place` and then any events request the unload at most once, and the events never unregister. |
| `Hooks.DeferredUntilLoaded` | core/hooks.cpp:232-265 | An absolute patch is applied at startup and a patch for an unloaded module is kept, with registration. That module's load event applies it, empties the list and requests the unload. |
| `Hooks.PendingPatches` | core/hooks.cpp:272-275 | The count is 0 exactly when nothing is pending. |
| `Hooks.AllPatchesApplied` | core/hooks.cpp:267-270 | `all_patches_applied` holds exactly when `pending_patches` is 0. |
| `Hooks.Unregister` | core/hooks.cpp:50-62 | Without a cookie or an unregister function it does nothing. Otherwise it makes one call and clears the cookie, changing nothing else. |
| `Hooks.UnregisterIdempotent` | core/hooks.cpp:50-62 | A second unregistration does nothing. |

## Left out

- Logging (`utils/console.*`, `log_patch_info`, the hex dump in the `compare_data` failure message, the "already applied" warning). It only produces text.
- `DllMain` (`core.cpp`): patch-file discovery, the 10-second sleep, `FreeLibraryAndExitThread`. Also, the manager there is a local whose destructor unregisters when `DllMain` returns (core.cpp:51-57). This is process lifetime, not coordinator logic.
- `narrow`, `get_argv`, `get_host_exe`, `get_dll_directory`, `collect_files_from_directory`: operating-system and filesystem calls. Module names arrive already converted.
- Reading files. A file is its list of lines (as `std::getline` yields them) or a missing/unopenable marker, and `path.filename()` is given as the file's name.
- The `patches_mutex`, the loader's threads and the detached unload thread. Each entry point is one atomic step, and the unload thread is counted in `unloadRequests`.
- Pointer arithmetic wrap-around: addresses are unbounded `nat`. The 32-bit wrap of `PointerToRawData + SizeOfRawData` is modelled.
- A fault in the copy (`Patcher.Store`'s `AccessViolation`) ends the model's write; the process crash that follows is not modelled. The coordinator (`Hooks`) takes `c_patcher::apply` as an oracle returning success or failure, so it does not see faults.
- Protection modifier flags (`PAGE_GUARD`, `PAGE_NOCACHE`, `PAGE_WRITECOMBINE`) are not modelled: a page is writable exactly when its protection is one of `PAGE_READWRITE`, `PAGE_WRITECOPY`, `PAGE_EXECUTE_READWRITE` or `PAGE_EXECUTE_WRITECOPY`.
- Reads of unmapped memory: the source's behaviour there is undefined, so `Patcher.Apply` requires that the bytes it compares are readable.
- Patcher.WriteData: requires fewer than 2^32 replacement bytes, because the guard stores the size as a `DWORD`.
- ProtectionGuard.Release: the restoring `VirtualProtect` is taken to succeed, since it reverts a change just granted on the same range. Its status is ignored in the source.
- Hooks.RegisterNotification: on a failed registration the cookie is taken to be unchanged.
- The null-`pimpl_` checks of `place`, `all_patches_applied` and `pending_patches` (only after a move), and the unreachable "unknown address type" branch of `resolve_address`.
- `type_name`'s `"???"` fallback, which is unreachable for the three address kinds.

## Findings

| source | as written | input that shows it | evidently intended | confidence | as-written member | corrected member |
|---|---|---|---|---|---|---|
| core/patcher.cpp:133-141 | The guard is declared in the `if` statement's initializer, so it is destroyed at the end of that statement and the protection is restored before the `memcpy` runs. The copy then runs under the page's old protection. | A one-byte patch into a `PAGE_EXECUTE_READ` page, such as a byte of `.text`. The change to `PAGE_EXECUTE_READWRITE` is granted and undone, and the copy faults. | The guard stays alive until the copy is done. | high, not executed | `Patcher.WriteDataFaultsOnCode` | `Patcher.WriteDataGuarded` |
| core/c_protection_guard.hpp:13-22 | The constructor keeps the single old protection `VirtualProtect` reports, which is the first page's. The destructor writes that value back over the whole range. | A 2-byte patch at the last byte of a `PAGE_EXECUTE_READ` page, followed by a `PAGE_READONLY` page (for example across the boundary between `.text` and `.rdata`). After the write the second page is `PAGE_EXECUTE_READ`. | Every page of the range gets back its own previous protection. | medium, not executed | `ProtectionGuard.GuardWidensProtection` | `ProtectionGuard.PageGuardRestores` |

`Patcher.WriteData` and `Patcher.Apply` model the code as written: the guard
`ProtectionGuard.Acquire`/`ProtectionGuard.Release` is released before the
copy (`Patcher.Store`). `ProtectionGuard.GuardScopeAsWritten` shows the
as-written guard restores the table exactly when the range was uniformly
protected. The corrected write is `Patcher.WriteDataGuarded`: it holds the
per-page guard `ProtectionGuard.AcquirePages`/`ProtectionGuard.ReleasePages`
across the copy, never faults, and leaves every page's protection as it
found it.
