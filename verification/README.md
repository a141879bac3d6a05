# A verified model of the algorithmic cores

This project models six cores of the repository and proves what each of them promises:

- **Canonical archives** (`tools/archivepack`): ustar headers, the tar stream, the ZIP layout, entry ordering, and the
  two loops that read through a fixed buffer whatever way the reader fragments its input. Formats are the ustar
  Interchange Format of IEEE Std 1003.1 (pax) and sections 4.3.7, 4.3.9, 4.3.12 and 4.3.16 of PKWARE APPNOTE.TXT.
- **Transactional bootstrap** (`tools/bootstrap`): a file tree as a map, calls that may fail without effect, staging,
  backups, commits, renames and rollback.
- **Command line and catalog** (`internal/cli`): the argv parser, its value checks, the relation checks of the catalog,
  reference reachability, command paths and matching.
- **Escaping** (`internal/cli/format.go`) with UTF-8 as in section 3 of RFC 3629.
- **Layer rules** (`tools/archlint`): one local rule per import, one global property of import chains.
- **Duplicate-key JSON walkers** (`tools/contractlint`, `tools/artifactevidence`).

Code that changes state is a class or a method with loops, proved against functions and predicates; lemmas then say
what those functions mean, down to literal bytes, directories and names (`ZipReadBack`, `TarHeader.FixedBytes`,
`ArgvForms`, `Layers.LayersByPath`, `Escaping.OtherRunesSpelled`, `Entries.NamesExactly`). Go strings are sequences of
bytes. Tree faults, read fragmentation, short writes and the order of Go maps are nondeterministic. `dafny verify
dfyconfig.toml` checks everything.

| file | content |
|---|---|
| `Bytes`, `Utf8`, `Sorting` | shared vocabulary: sequences, UTF-8, sorting as a specification |
| `Entries`, `Streams`, `TarHeader`, `TarArchive`, `ZipLayout`, `ZipReadBack` | canonical archives |
| `FileTree`, `BootstrapPlan`, `BootstrapRun`, `RenameRun`, `Bootstrap`, `BootstrapApply` | the transactional bootstrap |
| `Inputs`, `Arguments`, `Invocations`, `ArgvForms`, `Relations`, `Usability`, `PositionalOrder` | the command line and its static checks |
| `Reachability`, `CommandPaths` | the remaining catalog checks |
| `Escaping`, `Layers`, `JsonWalker` | the remaining three cores |

## Where the code does less than it says

- The comment at internal/cli/catalog.go:3184-3187 promises that every optional input appears in some valid invocation.
  The check does not know that positionals are supplied in order, so `[a] [b]` with `b` conflicting with `a` passes and
  no argv ever supplies `b` (`AcceptedButUnusable`, `SuchDeclarationsExist`). The promise holds exactly when the same
  check accepts the declarations in which each positional also requires its predecessor (`UsableExactly`), and exactly
  as stated for the presence checks alone (`StaticCheckIsExact`).
- A rename may target the backup name of an updated file (`BackupCanBeTargeted`). A successful bootstrap then removes
  the renamed entry in place of the backup it overwrote. Success lands every entry if and only if no target is a backup
  name (`ExecutePlan`). The rollback promise holds for all plans: a missing backup always makes the rollback report
  failure (`RollbackUpdates`, `StaysLost`). Where no target is a backup name and the plan applies, a rollback or clean-up
  fails only by a fault of its own, so that a single fault leaves the old tree or the finished one, at most with backups.
- `safeExternalText` is lossless exactly on well-formed UTF-8 (`UnescapeEscapeText`); `safeExternalBytes` always is.
- The two buffered loops take an `ErrUnexpectedEOF` raised by a stream itself for its end, like a true end of file. For
  streams read directly, the comparison succeeds if and only if sizes and bytes agree and both streams end in one of the
  two (`VerifyDirect`); a stream that reports itself cut short therefore passes (`TruncatedPasses`).

## Model

| member | source | states |
|---|---|---|
| Escaping.UnescapeEscapeBytes | internal/cli/format.go:30-45 | one decoder recovers every byte string, valid UTF-8 or not, from its escaped form |
| Escaping.UnescapeEscapeText | internal/cli/format.go:49-55 | the same decoder recovers a text if and only if it was well-formed UTF-8 |
| Escaping.EscapedBytesClean | internal/cli/format.go:30-92 | the output is well-formed UTF-8 without category-C runes, U+2028 or U+2029 |
| Escaping.EscapedRunesClean | internal/cli/format.go:49-92 | the same for escaped text |
| Escaping.ReadRowBack | internal/cli/format.go:57-63 | a tab-separated row of escaped cells splits back into exactly its cells |
| Escaping.ReadTableBack | internal/cli/format.go:57-63 | a whole table of escaped cells reads back as its rows |
| Escaping.UnchangedExactlyWhenPlain | internal/cli/format.go:28-55 | escaping leaves a value as it is if and only if it is well-formed and holds neither a backslash nor a structural rune |
| Escaping.PlainCopied | internal/cli/format.go:28-55 | such a value in front of anything is copied, and what follows is escaped as if it stood alone |
| Escaping.OnlyPlainKeepsItsLength | internal/cli/format.go:28-92 | escaping never shortens, and lengthens everything that is not plain |
| Escaping.OtherRunesSpelled | internal/cli/format.go:65-90 | a backslash is doubled; tab, return and line feed become `\t`, `\r`, `\n`; every other structural rune becomes `\u` with its four digits or `\U` with its eight |
| Escaping.StrayBytesSpelled | internal/cli/format.go:34-38 | a byte that starts no rune becomes `\x` with its two digits, or U+FFFD in text |
| Escaping.HexDigits | internal/cli/format.go:35-87 | the digits are 0 to 9 and upper-case A to F |
| Escaping.WriteExternalRune | internal/cli/format.go:65-92 | writes the escape of one rune, which is the rune itself if and only if it is neither structural nor a backslash to be escaped |
| Escaping.SafeExternalBytes | internal/cli/format.go:30-45 | the decoding loop computes the invertible escaping; its result is the input if and only if that is plain, and every plain beginning is copied |
| Escaping.SafeExternalText | internal/cli/format.go:49-63 | the range loop computes the escaping of the visited runes, unchanged if and only if plain and with every plain beginning copied; escapeTSVCell has the same body |
| Utf8.EncodedBits | internal/cli/format.go:91 | a written rune has the shortest of the four bit patterns, six bits in each byte after the first |
| Utf8.DecodeEncode | internal/cli/format.go:33-42 | decoding after encoding returns the rune and consumes exactly its bytes |
| Utf8.EncodeDecode | internal/cli/format.go:33-42 | whatever decodes is exactly the encoding of the rune returned, so overlong forms and surrogates are refused |
| Utf8.ReencodeExactlyWhenValid | internal/cli/format.go:49-55 | re-encoding the visited runes restores a string if and only if it was well formed |
| TarHeader.FormatCanonicalTarOctal | tools/archivepack/verify.go:221-235 | the in-place writer succeeds exactly for values that fit and writes the zero-padded digits and a NUL, nothing else |
| TarHeader.ParseCanonicalTarOctal | tools/archivepack/verify.go:237-251 | the digit loop computes the field's value, refusing non-octal bytes, a missing NUL and 64-bit overflow |
| TarHeader.ParseFormat | tools/archivepack/verify.go:221-251 | every field written reads back as its value |
| TarHeader.FormatParse | tools/archivepack/verify.go:221-251 | formatting any parsed value into a field of that length reproduces the field, so fields and values correspond one to one |
| TarHeader.DigitsFit | tools/archivepack/verify.go:221-231 | the shortest octal form has at most n digits if and only if the value is below 8^n, and padding it gives the n-digit form |
| TarHeader.ChecksumStored | tools/archivepack/verify.go:205-216 | the byte sum with a blank checksum field always fits six digits and the stored field reads back as that sum |
| TarHeader.HeaderReadsBack | tools/archivepack/verify.go:118-131 | name, mode and size parsed out of a canonical header are the ones it was built from |
| TarHeader.CanonicalTarHeader | tools/archivepack/verify.go:179-219 | filling the 512-byte block field by field, checksum last, gives the header described byte by byte, or an error for what cannot be stored |
| TarHeader.FixedBytes | tools/archivepack/verify.go:187-211 | byte by byte, everything in a header that the entry does not determine: owner, group, time, type, magic, version, device numbers and the zeros between |
| TarHeader.ChecksumOfBlock | tools/archivepack/verify.go:208-216 | the stored checksum is the sum of the block's own bytes with its field read as blanks |
| TarHeader.Padding | tools/archivepack/verify.go:253-255 | less than a block, and it completes the last block |
| TarArchive.VerifyTarStream | tools/archivepack/verify.go:109-165 | accepts if and only if the stream is header, content and zero padding per entry, then two zero blocks and nothing more, however it is fragmented |
| TarArchive.StreamDeterminesEntries | tools/archivepack/verify.go:109-165 | one stream is canonical for at most one list of names, modes and contents |
| TarArchive.EntryStep | tools/archivepack/verify.go:110-149 | a stream is canonical exactly when it starts with the first header and body and the rest is canonical for the rest |
| TarArchive.CheckHeader | tools/archivepack/verify.go:114-136 | a header block passes exactly when it is the canonical one for some size, and that size is returned |
| TarArchive.ReadBody | tools/archivepack/verify.go:137-149 | passes exactly when content and zero padding follow, leaving the stream just behind them |
| TarArchive.VerifyEnd | tools/archivepack/verify.go:151-164 | accepts exactly two zero blocks at the end of the stream |
| ZipReadBack.VerifyCanonicalZipLayout | tools/archivepack/verify.go:323-443 | accepts if and only if the archive is the canonical layout around some compressed data, and if and only if names, extra fields, CRCs, sizes, modes, offsets and data are read back from it at fixed byte positions, with no byte left over |
| ZipReadBack.ReadBackExactly | tools/archivepack/verify.go:323-443 | an archive is the canonical layout around given data if and only if, from the end record to the central headers and the local parts they point at, these data and the reported numbers are read back |
| ZipReadBack.LocalBytesExact | tools/archivepack/verify.go:357-400 | a local part is in place if and only if the bytes at its offsets are the reported numbers: the descriptor holds CRC, compressed and uncompressed size at 4, 8 and 12 |
| ZipReadBack.CentralBytesExact | tools/archivepack/verify.go:405-437 | the same for a central header: CRC and sizes at 16, 20 and 24, regular-file mode at 40, local offset at 42 |
| ZipReadBack.EndBytesExact | tools/archivepack/verify.go:326-345 | the same for the end record: counts at 8 and 10, size of the central headers at 12, their offset at 16 |
| ZipLayout.LaidOutIsTiled | tools/archivepack/verify.go:323-443 | the concatenation and the statement by offsets that tile the file without gap or overlap are equivalent |
| ZipLayout.TiledExactly | tools/archivepack/verify.go:323-443 | the offsets tile the file if and only if some data make it the canonical layout |
| ZipLayout.DataIsDetermined | tools/archivepack/verify.go:323-443 | an accepted archive carries only one list of compressed data |
| ZipLayout.SameDataSameArchive | tools/archivepack/verify.go:323-443 | two accepted archives with the same entries and compressed data are byte-identical |
| ZipLayout.EndDecides | tools/archivepack/verify.go:326-345 | the sizes read from the end record, whatever they are, lead to the same verdict as the true ones |
| ZipLayout.CheckLocals | tools/archivepack/verify.go:346-401 | the first loop accepts exactly when every local part is in place, and records each offset without 32-bit truncation |
| ZipLayout.CheckCentrals | tools/archivepack/verify.go:403-438 | the second loop accepts exactly when every central header is in place and points at its recorded offset |
| ZipLayout.CheckLocal | tools/archivepack/verify.go:348-400 | accepts exactly when the local part is in place, which LocalBytesExact spells out, and fits 32 bits; the next offset is just behind it |
| ZipLayout.CheckCentral | tools/archivepack/verify.go:405-437 | one central header, name and extra field are in place |
| ZipLayout.LocalsAtIsConcatenation | tools/archivepack/verify.go:346-401 | local parts standing one after the other are the concatenation at that offset |
| ZipLayout.CentralsAtIsConcatenation | tools/archivepack/verify.go:403-438 | the same for the central headers |
| ZipLayout.U32Exact | tools/archivepack/verify.go:327-345 | a little-endian field equals a value exactly when its bytes are the value's encoding |
| Streams.ReadFull | tools/archivepack/verify.go:486-489 | fills the buffer with the next bytes under any fragmentation and says whether it was filled |
| Streams.VerifyEntryContent | tools/archivepack/verify.go:469-502 | success means equal sizes, equal bytes and an EOF, or a reached limit, that ended both sides; without read errors equal sizes and bytes succeed, including multiples of the buffer |
| Streams.VerifyDirect | tools/archivepack/verify.go:469-502 | without limits, success is equivalent to equal sizes, equal bytes and both streams ending in EOF or ErrUnexpectedEOF |
| Streams.TruncatedPasses | tools/archivepack/verify.go:482-493 | a stream that ends in ErrUnexpectedEOF is accepted as complete |
| Streams.CopyDeterministic | tools/archivepack/main.go:388-412 | writes the source in 32 KiB chunks whatever the fragmentation; the total on success is the source length |
| Streams.ChunksShape | tools/archivepack/main.go:388-412 | the chunks join to the source, all but the last are full and none is empty |
| Entries.ValidateInputSpecs | tools/archivepack/main.go:169-193 | accepts exactly safe names and modes without exact or case-folded duplicates, and at least one |
| Entries.CanonicalEntries | tools/archivepack/main.go:195-228 | accepts exactly usable entries with acceptable names and returns a strictly increasing rearrangement |
| Entries.NamesExactly | tools/archivepack/main.go:237-261 | the checks on a name together: 1 to 100 visible ASCII characters, nine of them excluded, no final dot, and no device name in any case before the first dot |
| Entries.AcceptableExactly | tools/archivepack/main.go:169-235 | a list is acceptable exactly when it is not empty, every name and mode is, and no two names differ in case only |
| Bytes.LessAtFirstDifference | tools/archivepack/main.go:195-228 | the string order is decided at the first difference, where the end comes before every byte |
| Entries.IncreasingUnique | tools/archivepack/main.go:195-228 | two strictly increasing rearrangements of the same entries are equal |
| Entries.CanonicalEntriesOrderFree | tools/archivepack/main.go:195-228 | every rearrangement of the input gives the same result, accepted or refused |
| Entries.RearrangedAcceptance | tools/archivepack/main.go:169-228 | the sorting check and the hash-set check accept the same names in any order |
| JsonWalker.ConsumeBounded | tools/contractlint/contracts.go:432-490 | the recursive consumer on a stateful decoder consumes exactly what the walk on tokens consumes, at depth at most 128 |
| JsonWalker.ConsumeUnbounded | tools/artifactevidence/evidence.go:544-592 | the same without a bound |
| JsonWalker.RejectDuplicateKeys | tools/contractlint/contracts.go:423-430 | accepts exactly one accepted value followed by the end of input |
| JsonWalker.RejectDuplicateFields | tools/artifactevidence/evidence.go:535-542 | the same for the unbounded walker |
| JsonWalker.AcceptedExactly | tools/contractlint/contracts.go:423-490 | the streams accepted are exactly the documents in which no object repeats a key and nothing is deeper than the bound |
| JsonWalker.BoundOnlyLimitsDepth | tools/contractlint/contracts.go:432-490 | the bounded walker accepts exactly what the unbounded one accepts and the bound allows |
| JsonWalker.WalkConsumes | tools/contractlint/contracts.go:432-490 | exactly the tokens of one sound document are consumed, whatever follows |
| JsonWalker.WalkFinds | tools/contractlint/contracts.go:432-490 | whatever is consumed is one sound document within the bound |
| JsonWalker.Unambiguous | tools/contractlint/contracts.go:432-490 | a token stream reads back as only one document |
| Layers.InTreeExactly | tools/archlint/main.go:259-278 | a tree is a directory and every path that continues it behind a slash |
| Layers.LayersByPath | tools/archlint/main.go:259-278 | the trees below tools, cmd and the four internal directories are the six layers, so no two of them share a path; every other path of the module is unplaced |
| Layers.FindViolations | tools/archlint/main.go:200-231 | reports exactly the complaints due by directory and by name, sorted; nothing if and only if every listed production package is placed and imports as allowed |
| Layers.ReportedExactly | tools/archlint/main.go:200-403 | a violation is found if and only if some listed package of the module, outside tools, gives that reason by its place or by an import |
| Layers.ReasonNamed | tools/archlint/main.go:280-403 | each of the reasons is given exactly for the imports that the directories and package names spelled out for it describe |
| Layers.HostSegmentExactly | tools/archlint/main.go:233-245 | the split finds a host segment exactly when one of the five names stands between slashes below the module |
| Layers.EmptyReport | tools/archlint/main.go:200-231 | nothing is reported if and only if every production package is in one of the five trees and each import is allowed by directory and by name |
| Layers.RuleIsReach | tools/archlint/main.go:365-403 | between layers of the module the rule for one import is the reach of whole chains |
| Layers.ChainsStayConfined | tools/archlint/main.go:280-403 | with an empty report an import chain from the tree of internal/domain stays in it or leaves the module; from app or infra it stays there or in domain; from cli in these four |
| Layers.EntryPointChains | tools/archlint/main.go:280-403 | a chain from the tree of cmd enters the module in internal/cli and stays in the four internal trees |
| Layers.CoreIsPure | tools/archlint/main.go:280-363 | no package reachable from the trees of app or domain imports C, database/sql, net, os, plugin, runtime/cgo, syscall or log, anything below them, or a path whose first segment holds a dot; from domain not context either |
| Layers.ConfinementNeedsTheRule | tools/archlint/main.go:365-403 | conversely, if all chains are confined to these trees the rule forbids no import inside the module |
| Layers.MergeStrings | tools/archlint/main.go:180-194 | the sorted union without repetition |
| Layers.MergeKeepsVerdict | tools/archlint/main.go:169-194 | merging the imports of several targets hides no violation and invents none |
| Reachability.ValidateReferenceReachability | internal/cli/catalog.go:3528-3567 | computes exactly the obtainable kinds and accepts if and only if every produced kind has a finite run producing it |
| Reachability.RunsStayInside | internal/cli/catalog.go:3528-3567 | every run stays inside every closed set, so the result is the least fixpoint |
| Reachability.OrderDoesNotMatter | internal/cli/catalog.go:3528-3567 | the verdict does not depend on the order of the commands |
| Reachability.OnePass | internal/cli/catalog.go:3537-3557 | one pass is a run, and without progress the set is closed |
| CommandPaths.CheckCollisions | internal/cli/catalog.go:2240-2248 | accepts exactly when no path is a word prefix of another |
| CommandPaths.PrefixIsWordPrefix | internal/cli/catalog.go:2240-2244 | the string test with a trailing space is the word-prefix test |
| CommandPaths.Match | internal/cli/catalog.go:3679-3705 | words followed by the rest are argv, no longer path is a prefix, and failure means that none is |
| CommandPaths.AtMostOneMatches | internal/cli/catalog.go:2240-2248 | in a checked catalog at most one path begins argv |
| CommandPaths.MatchIgnoresOrder | internal/cli/catalog.go:3679-3705 | the result does not depend on the order of a checked catalog |
| Inputs.ParseFormatInt | internal/cli/catalog.go:3105-3110 | every 64-bit integer is accepted in its decimal form |
| Inputs.ParseDigitByDigit | internal/cli/catalog.go:3107 | a further digit multiplies by ten and adds, up to 64 bits; a leading minus negates, a leading plus changes nothing |
| Inputs.IntegersAccepted | internal/cli/catalog.go:3106-3117 | an integer in decimal form is accepted exactly within the declared bounds |
| Inputs.BooleansAccepted | internal/cli/catalog.go:3118-3122 | booleans are the two words true and false |
| Inputs.TextsAccepted | internal/cli/catalog.go:3083-3105 | text is well-formed and free of structural runes; a closed list admits nothing else |
| Inputs.SampleAccepted | internal/cli/catalog.go:3083-3124 | every declaration the catalog admits accepts at least one value |
| Inputs.CheckRepeatablePositionals | internal/cli/catalog.go:2408-2464 | the flag carried along the loop refuses exactly a repeatable positional that is not the last |
| Arguments.ParsedInputs.AddParsedInput | internal/cli/arguments.go:183-194 | adds one checked value in place, or reports an error and changes nothing |
| Arguments.ParseCommandInputs | internal/cli/arguments.go:81-181 | the one-pass loop computes Parse, which ParsesExactly and FormParsed characterise |
| ArgvForms.ParsesExactly | internal/cli/arguments.go:81-181 | an argv parses if and only if it is flags (`--name=v`, `--name v`, bare boolean) and words in any order, then perhaps `--` and words, whose values are accepted by their inputs, repeated only where allowed, and present together |
| ArgvForms.FormParsed | internal/cli/arguments.go:81-181 | such an argv parses to just these values: a bare boolean is "true", the m-th word goes to the m-th positional and the rest to a repeatable last one; then catalog defaults are added |
| Arguments.ScanArguments | internal/cli/arguments.go:98-151 | the argv loop with its three indices is Scan token by token, which FormScanned ties to the values supplied |
| Invocations.ParsePrint | internal/cli/arguments.go:81-181 | printing any valid assignment, each flag in any of its forms, a true boolean also bare, then `--` and the positionals, parses back to its values and the catalog defaults of the others |
| Invocations.TwoTokensAsOne | internal/cli/arguments.go:104-132 | `--name v` and `--name=v` mean the same for a non-boolean flag and a value without leading dash |
| Invocations.OccurrenceParsed | internal/cli/arguments.go:104-132 | one printed flag occurrence, also a bare boolean, adds exactly its value, before any rest |
| Invocations.ParseIsValid | internal/cli/arguments.go:81-181 | every successful parse carries a valid assignment and the catalog defaults of the inputs it does not supply |
| ArgvForms.FormScanned | internal/cli/arguments.go:98-151 | the scan of an argv of the form gathers for each input the values supplied to it in order, and fails exactly when one is refused, unowned or repeated |
| Invocations.ArgvForAssignment | internal/cli/arguments.go:81-181 | an argv supplying exactly a set of inputs exists if and only if a valid assignment does |
| Invocations.FinishExactly | internal/cli/arguments.go:153-179 | the final loops succeed if and only if required, requires and conflicts hold, and then only add defaults |
| Invocations.PositionalsConserved | internal/cli/arguments.go:98-151 | the supplied positional values in declared order are the positional tokens of argv, unchanged and in order |
| Relations.ValidateInputRelations | internal/cli/catalog.go:3137-3182 | accepts exactly the relations that name other command-line inputs once and do not contradict required |
| Relations.InputPresenceConflict | internal/cli/catalog.go:3217-3245 | closes the caller's set in place to the least closed superset and finds a conflict if there is one |
| Relations.CloseSelected | internal/cli/catalog.go:3217-3232 | the worklist computes the least closed superset |
| Relations.ClosedStartIsHarmless | internal/cli/catalog.go:3196-3209 | starting from the required set as the first call expanded it changes no verdict |
| Relations.ValidateSatisfiability | internal/cli/catalog.go:3188-3215 | accepts if and only if the required inputs, and each optional one with them, have a closed conflict-free superset |
| Usability.StaticCheckIsExact | internal/cli/catalog.go:3188-3245 | the static check accepts if and only if some presence set around the required inputs, and around each other input, passes the parser's checks |
| Usability.SatisfiableIsPresentable | internal/cli/arguments.go:153-179 | closed and conflict-free around given names means a presence set that the parser lets through |
| Usability.ValidatedRelations | internal/cli/catalog.go:3137-3182 | validated relations join command-line inputs only |
| PositionalOrder.SuppliedExactly | internal/cli/arguments.go:81-181 | a set of inputs is supplied by some argv if and only if it passes the presence checks and leaves no gap among the positionals |
| PositionalOrder.UsableExactly | internal/cli/catalog.go:3184-3245 | every input has an argv that supplies it if and only if the static check accepts the declarations with the order of positionals added as relations |
| PositionalOrder.UsableImpliesAccepted | internal/cli/catalog.go:3184-3245 | the static check never refuses a command whose inputs are all usable |
| PositionalOrder.AcceptedButUnusable | internal/cli/catalog.go:3184-3245 | a later positional that conflicts with an earlier one passes the static check and is never supplied |
| PositionalOrder.SuchDeclarationsExist | internal/cli/catalog.go:2395-2464 | such declarations meet the rules gathered in Declared |
| FileTree.RenameBack | tools/bootstrap/main.go:393-398 | renaming back after a rename onto a free path restores the whole tree |
| FileTree.RenamedWellFormed | tools/bootstrap/main.go:417-422 | a rename keeps every entry in a directory |
| FileTree.RenamedFile | tools/bootstrap/main.go:408-416 | renaming a file changes exactly two entries |
| BootstrapPlan.OrderRenames | tools/bootstrap/main.go:265-288 | refuses exactly shared or existing targets and returns the renames deepest first |
| BootstrapPlan.BuildPlan | tools/bootstrap/main.go:265-310 | from visited entries and chosen edits, a plan comes back exactly when targets are distinct and free and reserved names are free; its names are then all distinct and no source is a target |
| BootstrapPlan.NewContentUpdate | tools/bootstrap/main.go:292-310 | refuses exactly when a reserved name exists, which is the file's with `.bootstrap.tmp` or `.bootstrap.orig` |
| BootstrapPlan.SuffixedInjective | tools/bootstrap/main.go:296-297 | two files never share a reserved name |
| BootstrapPlan.StillAbove | tools/bootstrap/main.go:269-276 | deepest first: a path no deeper than the renames done, and not one of them, lies above the same entries as before |
| BootstrapPlan.SourceFound | tools/bootstrap/main.go:417-421 | when its turn comes, a rename finds its source under its original path |
| BootstrapPlan.MoveAllIsLanded | tools/bootstrap/main.go:417-422 | executing the renames in order takes every path to its original path with each visited component replaced |
| BootstrapPlan.LandedExactly | tools/bootstrap/main.go:417-422 | a path lands where each component is exchanged for the target's if the entry it names is renamed, and kept otherwise |
| BootstrapPlan.LandedOrderFree | tools/bootstrap/main.go:269-276 | where a path lands does not depend on the order of the renames |
| BootstrapPlan.LandedInjective | tools/bootstrap/main.go:277-288 | distinct entries land on distinct paths |
| BootstrapPlan.PathAfterRenames | tools/bootstrap/main.go:438-447 | the loop follows a path through the renames of its ancestors |
| BootstrapPlan.PathAfterIsMoveAll | tools/bootstrap/main.go:438-447 | a path that is not renamed itself is found exactly where the executed renames moved it |
| RenameRun.SourcesStayValid | tools/bootstrap/main.go:417-422 | with free targets every rename is possible when its turn comes |
| RenameRun.GoesTo | tools/bootstrap/main.go:417-422 | every entry arrives, with its content, where the renames take its path |
| RenameRun.ComesFrom | tools/bootstrap/main.go:417-422 | whatever is in the renamed tree is some original entry moved there |
| RenameRun.UndoRename | tools/bootstrap/main.go:393-398 | one rename undone gives the tree before it, unless the rename had overwritten a backup, which is then lost |
| RenameRun.ReverseOne | tools/bootstrap/main.go:393-398 | with free targets every rename can be undone, the last one first, and leads back to the state before it |
| RenameRun.StaysLost | tools/bootstrap/main.go:393-398 | no later undone rename brings a lost backup back |
| RenameRun.LandsIfDisjoint | tools/bootstrap/main.go:423-428 | with targets apart from backups, every updated file holds its updated bytes and mode where it lands, every other entry is there as it was, and nothing else is |
| RenameRun.LandsOnlyIfDisjoint | tools/bootstrap/main.go:423-428 | otherwise an entry is missing |
| RenameRun.LandsWithBackupsLeft | tools/bootstrap/main.go:423-428 | when the removal stops early, updated bytes and other entries are where they land and only backups are left over, each where its path was renamed to |
| RenameRun.NoTemporaryLeft | tools/bootstrap/main.go:376-380 | no entry ends under a temporary name, so the deferred clean-up of a success touches nothing |
| RenameRun.BackupRemovable | tools/bootstrap/main.go:423-428 | each backup is a file where it is looked for, not yet removed |
| BootstrapRun.CurrentMeansApplicable | tools/bootstrap/main.go:475-522 | the revalidation of the staged tree decides whether the plan applied to the tree before staging |
| BootstrapRun.UndoOne | tools/bootstrap/main.go:399-407 | removing an update and renaming its backup restores the state before it, also when only the backup had been made |
| BootstrapRun.RestorePossible | tools/bootstrap/main.go:399-407 | in every state that can be undone nothing but a fault keeps the last update from being removed and its backup renamed |
| BootstrapRun.BackupStaysMissing | tools/bootstrap/main.go:399-407 | restoring one update never recreates another one's backup |
| Bootstrap.StageContentUpdate | tools/bootstrap/main.go:449-473 | stages a file of the updated bytes and mode under a new name, or leaves the tree unchanged when its own clean-up works |
| Bootstrap.ValidatePlanCurrent | tools/bootstrap/main.go:475-522 | without a fault while reading it accepts exactly the current plan, and it changes nothing |
| Bootstrap.CommitUpdates | tools/bootstrap/main.go:408-416 | every prefix of the commits, also one that stops between the two renames, can be undone |
| Bootstrap.RollBack | tools/bootstrap/main.go:390-407 | a rollback without errors restores the tree apart from temporaries, whichever step had failed; if no target is a backup name, only a fault makes it report an error |
| Bootstrap.RollbackUpdates | tools/bootstrap/main.go:399-407 | undoes every update that was begun; a missing backup makes it report failure, otherwise only a fault does |
| Bootstrap.ExecutePlan | tools/bootstrap/main.go:374-436 | all or nothing: an abort with clean rollback and clean-up leaves the tree as it was; success puts the updated bytes and mode of every update, and every other entry, where it lands exactly when targets and backups are apart; then only a fault prevents success, only a second one spoils rollback or clean-up, and an unremovable backup leaves everything else landed |
| BootstrapApply.Apply | tools/bootstrap/main.go:113-126 | from edits and renames to the final tree: refused exactly for shared or existing targets and existing reserved names; without a fault, and with targets apart from reserved names, each edited file holds its new content where the renames take it, all else is there as it was, and nothing more |
| Bootstrap.BackupCanBeTargeted | tools/bootstrap/main.go:265-310 | for every pair of sibling names, a plan renaming the one with the backup ending onto the other's backup name meets all demands that BuildPlan checks |

## Left out

- Real file I/O: symbolic links, same-file checks, permissions, locks and processes; the tree is a map and each call may fail.
- Failures while backups are removed (tools/bootstrap/main.go:423-428) for a plan with a target on a backup name: no claim about the tree.
- A rename or a removal that fails after taking effect, and changes to the tree by other processes during a run.
- BootstrapPlan.BuildPlan: the walk, text replacement, Go formatting and profile update that choose edits and renames (tools/bootstrap/main.go:128-264) are not modelled; their result is the input, and the errors they raise are not promised.
- Bootstrap.ValidatePlanCurrent: does not model the rejection of symbolic links, because the trees here hold none; its walk of the repository is one read that may fail.
- Compression, CRC and gzip: the tar stream is taken decompressed, CRC values and sizes are those the ZIP reader reports.
- The raw gzip header check (tools/archivepack/verify.go:310-321): ten fixed bytes.
- The readers of archive/zip and encoding/json: what they report is a parameter, a list of files or of tokens.
- 64-bit overflow of ZIP offsets: offsets are unbounded here; the 32-bit checks keep accepted ones below 2^34.
- Streams that return no bytes and no error forever: every read makes progress or ends.
- Streams.VerifyEntryContent: acceptance is claimed for streams that end cleanly, since any other end is a read error.
- Invocations.PositionalsConserved: speaks of supplied values; a default of a positional that was not supplied is not a token of argv.
- Escaping.ReadTableBack: every cell is escaped; opaque identifiers, which bypass escaping, are not part of this model.
- The table behind unicode.C: a parameter constrained to contain the control characters and no printable ASCII.
- Error texts: errors are constructors with the names involved; where several apply, the order is the source's.
- The accessors of ParsedInputs and the conversions behind them: each is one lookup.
- The remaining declarative checks of the catalog, its command list, help texts and error tables: finite data.
- The syntax check of argument summaries (internal/cli/catalog.go:3369-3400).
- The source inspection of archlint and its `go list` runs: the package graph is the input.
- Streams.CopyDeterministic: the 32 KiB chunks are claimed for reads and for successful writes; a failed write ends the copy.
