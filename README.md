# XivAlexander core, modelled in Dafny

XivAlexander is an addon for the FINAL FANTASY XIV client. The project models the small pieces of
string, sequence and state logic that sit inside its Win32 glue and proves what they promise:

- **The loader's command line** (`LoaderApp`, loader_app.dfy).
  - The `repr` printers of the two option enums.
  - The prefix-tolerant, case-insensitive parsers of `-a` and `-l`.
  - Classification of the positional targets into process ids and lowercased path suffixes.
  - The parameter object that `Parse` fills in.
  - The set of target process ids built by `GetTargetPidList`.
  - The package version check.
  - The plan `DoPidTask` follows for one process.
  - The command line handed to the loader of the other bitness.
- **Game-installation string logic** (`XivAlex`, xivalex.dfy).
  - The in-place sanitiser of the game version text.
  - Acceptance of the version file.
  - Counting of publisher countries and the region picked from them.
  - The `unknown_XXXXXXXX` fallback region name.
  - NUL handling in registry reads.
  - The in-place de-duplication of launcher records.
  - Recognition of the main DLL by its file description.
- **The application object** (`AppCore`, app_app.dfy).
  - The update check's version parse and its four-number comparison.
  - The LIFO cleanup stack, run on destruction and on a failed `Load`.
  - The queue of functions run on the game's message loop, drained only at window-procedure depth 0.
  - The guards of `Unload`.
  - The construction of the application.
- **The log window** (`LogWindow`, log_window.dfy).
  - The level-to-style and category-to-name tables.
  - The line formatter.
  - The `addLogFn` batcher that flushes text at every change of level.
- **The sqpack conversion scratch program** (`SqpackExport`, sqpack_export.dfy).
  - The choice of `ffxiv\000000.win32.index`.
  - Turning each file under the replacement folder into a logical archive path.
  - The read-until-zero drain loops.
  - The write-advance loops that export `.index`, `.index2` and `.datN`.

Two shared modules hold library behaviour the core relies on:

- `Text` (text.dfy) covers ASCII case folding, splitting and joining on a delimiter, decimal and hexadecimal digits, `std::stoi`, and lexicographic order.
- `FsPath` (fs_path.dfy) covers how `std::filesystem::path` on Windows splits a path into a drive root name, a root directory and components. On that basis it models `filename()`, `parent_path()`, `extension()`, `replace_extension()` (both search for the dot only in the file name before its first ':', where an NTFS alternate data stream starts), `operator/`, and the key by which `std::set<path>` tells paths apart. Network (UNC) root names are not modelled.

Operating-system services become parameters of the model:

- Process lists and image paths.
- Message-box answers.
- File sizes and reads.
- Registry values.
- The CRC-32 function.
- Whether the game window exists.
- The archive engine's read and write calls.

Where the source mutates state, the model does too:

- The sanitiser, the path rewrite and the de-duplication work on an `array`.
- The loader's parameter object, the application implementation and the process-wide statics are `class`es. Each method's postcondition gives the new value of every field its `modifies` clause names.
- Pure computations are functions, and loops are methods proved equal to them.

## Model

| member | source | states |
|---|---|---|
| Text.LowerIdempotent | XivAlexanderLoader/App.cpp:43-45 | Lowering twice is lowering once (CharLowerW modelled as ASCII folding) |
| Text.StoiDecimal | XivAlexanderLoader/App.cpp:184 | std::stoi consumes the whole decimal text of any number up to INT_MAX and returns that number |
| Text.SplitJoin | XivAlexander/App_App.cpp:306-307 | Splitting the join of delimiter-free pieces gives the pieces back |
| Text.JoinSplit | XivAlexander/App_App.cpp:306-307 | Joining the pieces of a split gives the text back |
| Text.LexTrichotomy | XivAlexander/App_App.cpp:315-327 | std::vector's < is a strict order: exactly one of less, equal, greater |
| Text.LexTransitive | XivAlexander/App_App.cpp:315-327 | std::vector's < is transitive |
| Text.StrTotal | XivAlexanderCommon/XivAlex.cpp:129 | The wstring order used by the map is a strict total order |
| Text.ZeroPadValue | XivAlexander/App_Window_LogWindow.cpp:74 | A "{:0N}" field is all digits and reads back as the number |
| Text.HexPad | XivAlexanderCommon/XivAlex.cpp:143 | A "{:08x}" field has the width, lowercase hex digits only, and reads back as the value |
| Text.Stoi | XivAlexanderLoader/App.cpp:184 | A successful std::stoi consumes at least one character and ends on a digit, and its value lies within the int range |
| Text.StoiSignedDigits | XivAlexanderLoader/App.cpp:184 | A sign followed only by digits in range is consumed whole, and the sign applies to the value |
| Text.StoiAfterSpace | XivAlexanderLoader/App.cpp:184 | Leading white space does not change whether stoi succeeds or its value, only the count consumed |
| Text.StoiOutOfRange | XivAlexanderLoader/App.cpp:184 | Digits whose value exceeds INT_MAX make stoi throw |
| FsPath.RemoveExtension | ScratchProject/Source.cpp:30 | replace_extension("") leaves the path that, followed by the extension and the file name's alternate data stream, is the input: both are dropped |
| FsPath.ReplaceExtension | ScratchProject/Source.cpp:69 | replace_extension(ext) is the path without its extension and alternate data stream, followed by ext, with a dot put in front when ext lacks one |
| FsPath.FileName | ScratchProject/Source.cpp:38 | filename() is a separator-free suffix of the path that lies after the root |
| FsPath.StreamStart | ScratchProject/Source.cpp:23 | The alternate data stream of a file name starts at its first ':', or there is none |
| FsPath.StreamlessName | ScratchProject/Source.cpp:23 | The part of filename() searched for the extension is its longest ':'-free prefix |
| FsPath.AlternateStream | ScratchProject/Source.cpp:30 | The rest of filename() is empty or starts with ':', and it is empty iff filename() has no ':' |
| FsPath.ExtensionStart | ScratchProject/Source.cpp:23 | Within the searched name, the extension starts at a dot after position 0 with no later dot; it is empty only for ".", ".." and names with no dot after their first character |
| FsPath.Extension | ScratchProject/Source.cpp:23 | extension() is a ':'-free suffix of the file name before its alternate data stream |
| FsPath.ExtensionShape | ScratchProject/Source.cpp:23 | extension() is empty or a dot with no dot after it, shorter than the file name before its stream; it is empty only when that name is ".", ".." or has no dot after its first character |
| FsPath.ExtensionAtLastDot | ScratchProject/Source.cpp:23 | When the file name before its stream is not "." or "..", extension() starts at that name's last dot if that dot is not the first character |
| FsPath.DotInStreamIsNoExtension | ScratchProject/Source.cpp:23 | In "ab:s.x" the only dot lies in the stream, so the extension is empty |
| FsPath.StreamDroppedWithExtension | ScratchProject/Source.cpp:30 | "f.txt:s.e" has extension ".txt", and replace_extension("") gives "f" |
| FsPath.StreamWithoutDot | ScratchProject/Source.cpp:23 | A plain name with no dot after its first character before its first ':' has no extension, whatever follows the ':' |
| FsPath.StreamAfterDot | ScratchProject/Source.cpp:30 | For a plain name whose last dot before its first ':' is at d, the extension runs from d to the ':' and replace_extension("") keeps only the text before d |
| FsPath.ParentPath | ScratchProject/Source.cpp:37 | parent_path() is a prefix that keeps the root, does not end in a separator past the root, and is shorter than the path exactly when something follows the root |
| FsPath.ParentAndName | ScratchProject/Source.cpp:37-38 | A path is its parent, a run of separators, and its file name |
| FsPath.Combine | ScratchProject/Source.cpp:17-20 | operator/ ends with the name after its root name, and keeps the path as a prefix when the name has no root |
| FsPath.CombineComponents | ScratchProject/Source.cpp:19-20 | operator/ with a separator-free name adds one component: its filename is the name and its parent is the original path |
| FsPath.ComponentsMapped | ScratchProject/Source.cpp:37-43 | A character map that keeps separators commutes with filename() and parent_path() |
| FsPath.PathKeyExamples | XivAlexanderCommon/XivAlex.cpp:380-382 | std::set<path> treats `C:/a//b` and `C:\a\b` as the same root |
| FsPath.PathKeyKeepsTrailingSeparator | XivAlexanderCommon/XivAlex.cpp:380-382 | It does not treat `a\` and `a` as the same path |
| LoaderApp.NamesAreReprs | XivAlexanderLoader/App.cpp:30-40 | The names the parsers compare against are repr of each enumerator below Count_, in declaration order |
| LoaderApp.LoaderActionRepr | XivAlexanderLoader/App.cpp:30-40 | repr of an action is a non-empty, space-free lowercase name, one of the parser's names exactly for the enumerators below Count_ |
| LoaderApp.LauncherTypeRepr | XivAlexanderLoader/App.cpp:66-75 | repr of a launcher type is a non-empty, space-free lowercase name, one of the parser's names exactly for the enumerators below Count_ |
| LoaderApp.LoaderActionOf | XivAlexanderLoader/App.cpp:42-56 | A parsed action is a real enumerator whose name is compatible with the lowercased value; the "Invalid action" error comes exactly when no name is compatible |
| LoaderApp.LauncherTypeOf | XivAlexanderLoader/App.cpp:77-94 | A parsed type is a real enumerator whose name is compatible, or International for a value starting with e, d, g, f or j; the "Invalid launcher type" error comes exactly when neither holds |
| LoaderApp.FirstCompatible | XivAlexanderLoader/App.cpp:46-54 | The index found agrees with the value on every shared position and no earlier name does; None when no name does |
| LoaderApp.MatchName | XivAlexanderLoader/App.cpp:46-54 | The nested loop with the `equal` flag and the early return finds exactly the first compatible name |
| LoaderApp.ParseLoaderAction | XivAlexanderLoader/App.cpp:42-56 | Lowercase, then the first action compatible with the value, else the "Invalid action" error |
| LoaderApp.ParseLauncherType | XivAlexanderLoader/App.cpp:77-94 | Lowercase, then the first compatible type; an unmatched value starting with e, d, g, f or j means International; otherwise the "Invalid launcher type" error |
| LoaderApp.ParsersIgnoreCase | XivAlexanderLoader/App.cpp:43-45 | Both parsers give the same answer for a value and its lowercase form |
| LoaderApp.EmptyValueIsAuto | XivAlexanderLoader/App.cpp:49-53 | The empty value parses to Auto for both options |
| LoaderApp.LoaderActionRoundTrip | XivAlexanderLoader/App.cpp:30-56 | Parsing repr(a) gives a back for every action but the sentinel |
| LoaderApp.LauncherTypeRoundTrip | XivAlexanderLoader/App.cpp:66-94 | Parsing repr(t) gives t back for every launcher type but the sentinel |
| LoaderApp.LoaderActionAbbreviations | XivAlexanderLoader/App.cpp:46-54 | "l" means Load (the earlier name wins) and "la" means Launcher |
| LoaderApp.LoaderActionLongValue | XivAlexanderLoader/App.cpp:43-51 | "LOADX" means Load: comparison stops at the shorter length, after lowercasing |
| LoaderApp.LoaderActionUnknown | XivAlexanderLoader/App.cpp:55 | "x" is refused with "Invalid action" |
| LoaderApp.LauncherTypeAbbreviation | XivAlexanderLoader/App.cpp:81-89 | "k" means Korean |
| LoaderApp.LauncherTypeFallback | XivAlexanderLoader/App.cpp:90-91 | "JP" matches no name and still means International |
| LoaderApp.LauncherTypeUnknown | XivAlexanderLoader/App.cpp:93 | "x" is refused with "Invalid launcher type" |
| LoaderApp.ClassifyTarget | XivAlexanderLoader/App.cpp:179-196 | A target is a pid exactly when it is empty or std::stoi consumed all of it; the pid is stoi's value converted to DWORD (modulo 2^32), 0 for the empty target; any other target is the lowercased suffix |
| LoaderApp.ClassifySigned | XivAlexanderLoader/App.cpp:184-195 | A "+" or "-" before a decimal up to INT_MAX is consumed with it; "-n" becomes the DWORD 2^32-n |
| LoaderApp.ClassifySpaced | XivAlexanderLoader/App.cpp:184-195 | White space before a non-empty target changes neither whether it is a pid nor which pid |
| LoaderApp.ClassifyOutOfRange | XivAlexanderLoader/App.cpp:184-192 | A decimal beyond INT_MAX makes stoi throw out_of_range, so it becomes a suffix |
| LoaderApp.ClassifyLeadingText | XivAlexanderLoader/App.cpp:184-192 | A target that starts with anything but white space, a sign or a digit becomes the lowercased suffix |
| LoaderApp.ClassifyDecimal | XivAlexanderLoader/App.cpp:184-195 | A decimal number up to INT_MAX is taken as that process id |
| LoaderApp.ClassifyNonNumeric | XivAlexanderLoader/App.cpp:180-195 | The empty target is pid 0; a target not ending in a digit is a lowercased suffix |
| LoaderApp.PidsOfMembers | XivAlexanderLoader/App.cpp:179-196 | A pid is in the pid set exactly when some target was classified as that pid |
| LoaderApp.SuffixesOfMembers | XivAlexanderLoader/App.cpp:179-196 | A suffix is in the suffix set exactly when some target was classified as that suffix |
| LoaderApp.ParseSettings | XivAlexanderLoader/App.cpp:115-126 | An absent -a or -l is Auto; a value a parser refuses is that parser's error, the action's first |
| LoaderApp.SettingsAreReal | XivAlexanderLoader/App.cpp:115-126 | Parsed settings never hold a sentinel; with neither option given both are Auto |
| LoaderApp.EndsWithAny | XivAlexanderLoader/App.cpp:233-238 | The loop with early break answers whether some suffix ends the path |
| LoaderApp.LoaderParameter.constructor | XivAlexanderLoader/App.cpp:100-110 | The member defaults: Auto action and launcher, no flags except automatic elevation disabled, empty target sets, empty program and arguments |
| LoaderApp.LoaderParameter.AddTargets | XivAlexanderLoader/App.cpp:179-196 | Each target is added to the pid set or to the suffix set as it classifies, nothing else changes |
| LoaderApp.LoaderParameter.FileTargets | XivAlexanderLoader/App.cpp:179-196 | The insertion loop adds exactly the classified pids and suffixes |
| LoaderApp.LoaderParameter.Parse | XivAlexanderLoader/App.cpp:148-197 | -h/-help anywhere after the program name sets help and stops; a parse error leaves the fields alone; otherwise every field is the parsed option, the first target is the program and the rest its arguments, and the targets are filed |
| LoaderApp.LoaderParameter.Assign | XivAlexanderLoader/App.cpp:166-177 | The flags and settings are stored; the program and its arguments are replaced only when targets exist |
| LoaderApp.LoaderParameter.GetTargetPidList | XivAlexanderLoader/App.cpp:206-247 | The result is every requested pid plus every process whose lowercased path ends with a suffix; with nothing named the suffixes become the two game executables |
| LoaderApp.RunningWithSuffix | XivAlexanderLoader/App.cpp:217-245 | The scan over the process snapshot selects a process iff its lowercased path ends with some suffix; unopenable processes are skipped |
| LoaderApp.RequestedPidsReturned | XivAlexanderLoader/App.cpp:208-212 | The intersection with the running processes adds nothing to the requested pids inserted after it |
| LoaderApp.NoMatchReaction | XivAlexanderLoader/App.cpp:537-549 | With no pid found: Auto starts the launcher; quiet exits silently; otherwise "not found, run the game first" iff no target was named, else "no matching process" |
| LoaderApp.NoMatchReactionAsWritten | XivAlexanderLoader/App.cpp:537-549 | As written, after the default suffixes of lines 213-216 are filled in, Auto starts the launcher, quiet exits, and otherwise the message is always "No matching process found." |
| LoaderApp.NoMatchReactionAsWrittenNeverSaysNotRunning | XivAlexanderLoader/App.cpp:213-216 | As written the "not found" message is unreachable, because the default suffixes were filled in before the check |
| LoaderApp.CheckPackageVersions | XivAlexanderLoader/App.cpp:7-19 | Passes iff every module's (file, product) versions equal the first's; fails with "Inconsistent files." otherwise |
| LoaderApp.DecidedAction | XivAlexanderLoader/App.cpp:325-394 | Actions other than Ask and Auto are kept; for those two, Yes loads, No unloads iff the addon is loaded, and Cancel with the addon or No without it gives the Count_ sentinel |
| LoaderApp.PlanPidTask | XivAlexanderLoader/App.cpp:311-418 | Another bitness is relaunched with the arguments as formatted; the task is abandoned with the lookup's message exactly when Ask or Auto meets an unloaded process whose release lookup threw; an injected action is real and unloads only a loaded addon |
| LoaderApp.PidTaskEarlyExit | XivAlexanderLoader/App.cpp:311-418 | With matching bitness and no failed lookup, the DLL is injected iff the decision is a real action and not an unload of an absent addon; explicit Load always injects, Unload only when loaded |
| LoaderApp.InjectedCalls | XivAlexanderLoader/App.cpp:401-417 | EnableXivAlexander(1) is called iff the action is Load; EnableXivAlexander(0) is called iff it is Unload or the load failed; the task fails iff Load returns non-zero, with the exit code in the message |
| LoaderApp.FailedLoadIsUndone | XivAlexanderLoader/App.cpp:401-417 | A load that returns non-zero fails and is followed by EnableXivAlexander(0); nothing else fails |
| LoaderApp.RelaunchArgsAsWritten | XivAlexanderLoader/App.cpp:316-319 | The line as formatted splits on spaces into "<action>-a", an optional "-q", an empty word and the pid |
| LoaderApp.RelaunchArgsAsWrittenLosesAction | XivAlexanderLoader/App.cpp:316-319 | As written the first word is "<action>-a", never "-a" |
| LoaderApp.RelaunchArgs | XivAlexanderLoader/App.cpp:316-319 | The intended relaunch line splits on spaces into "-a", the action's name, an optional "-q" and the pid |
| LoaderApp.RelaunchArgsRoundTrip | XivAlexanderLoader/App.cpp:314-319 | The other loader parses the same action from the second word and the same pid from the last |
| XivAlex.SanitizeInPlace | XivAlexanderCommon/XivAlex.cpp:100-105 | The nested loops rewrite the text in place into its sanitised form |
| XivAlex.Sanitized | XivAlexanderCommon/XivAlex.cpp:100-105 | Length kept; a character becomes '_' iff it is one of <>:"/\|?* or below 32 |
| XivAlex.SanitizedIsClean | XivAlexanderCommon/XivAlex.cpp:100-105 | No replaceable character survives |
| XivAlex.SanitizedIdempotent | XivAlexanderCommon/XivAlex.cpp:100-105 | Sanitising twice is sanitising once |
| XivAlex.SanitizedKeepsCleanText | XivAlexanderCommon/XivAlex.cpp:100-105 | Clean text passes unchanged |
| XivAlex.GameVersionOf | XivAlexanderCommon/XivAlex.cpp:80-106 | An accepted version text comes from a file of at most 64 bytes read whole, and is clean |
| XivAlex.GameVersionAcceptance | XivAlexanderCommon/XivAlex.cpp:82-97 | The file is accepted iff it opens, is at most 64 bytes and ReadFile returns all of it; a larger file gives the "size too big" error |
| XivAlex.ReadGameVersion | XivAlexanderCommon/XivAlex.cpp:80-106 | The checks in order and the in-place sanitising give GameVersionOf |
| XivAlex.CountPublishers | XivAlexanderCommon/XivAlex.cpp:108-126 | The `publisherCountries[c]++` loop builds the count map |
| XivAlex.PublisherCountsMeaning | XivAlexanderCommon/XivAlex.cpp:120-125 | A country is counted iff some file names it and it is non-empty; its count is positive |
| XivAlex.MaxElement | XivAlexanderCommon/XivAlex.cpp:128-134 | max_element as written returns the greatest country key, whatever the counts |
| XivAlex.GreatestKeyUnique | XivAlexanderCommon/XivAlex.cpp:129 | The greatest key is unique |
| XivAlex.MostPublishedCountry | XivAlexanderCommon/XivAlex.cpp:128-134 | The corrected choice: a country with the highest count, the least key among ties |
| XivAlex.MostPublishedUnique | XivAlexanderCommon/XivAlex.cpp:128-134 | That choice is unique and no country has a higher count |
| XivAlex.GreatestKeyIgnoresCounts | XivAlexanderCommon/XivAlex.cpp:108-134 | Counts CN:2, KR:1: as written the region is KR, by count it is CN |
| XivAlex.CrcHex | XivAlexanderCommon/XivAlex.cpp:143 | Eight lowercase hex digits whose value is the checksum |
| XivAlex.UnknownRegionName | XivAlexanderCommon/XivAlex.cpp:136-145 | "unknown_" and eight hex digits whose value is the CRC-32 of the lowercased directory's UTF-16LE bytes |
| XivAlex.UnknownRegionNameIgnoresCase | XivAlexanderCommon/XivAlex.cpp:136-137 | The fallback name does not depend on the directory's case |
| XivAlex.UnknownRegionNameInjective | XivAlexanderCommon/XivAlex.cpp:138-143 | Different checksums give different names |
| XivAlex.ReleaseRegion | XivAlexanderCommon/XivAlex.cpp:108-145 | As written: the greatest country key when any file is signed, the fallback name otherwise |
| XivAlex.ReleaseRegionByCount | XivAlexanderCommon/XivAlex.cpp:108-145 | Corrected: the most published country when any file is signed, the fallback name otherwise |
| XivAlex.ResolveGameReleaseRegion | XivAlexanderCommon/XivAlex.cpp:75-146 | A version-file error is the result; otherwise the version is GameVersionOf and the region is chosen as written (greatest key, or the fallback) for the directory two levels above the executable |
| XivAlex.TruncateAtNul | XivAlexanderCommon/XivAlex.cpp:199 | The longest NUL-free prefix: it stops at the first NUL or the end |
| XivAlex.ReadRegistryAsString | XivAlexanderCommon/XivAlex.cpp:176-182 | The result never contains NUL |
| XivAlex.RegistryFallback | XivAlexanderCommon/XivAlex.cpp:177-181 | The 32-bit view wins whenever it holds text; the result is empty iff both views are |
| XivAlex.TruncateAtNulPadding | XivAlexanderCommon/XivAlex.cpp:194-199 | NUL-free text followed by NUL padding reads back as the text |
| XivAlex.RemoveDuplicates | XivAlexanderCommon/XivAlex.cpp:380-384 | remove_if with a `seen` set of keys leaves, in front, the records whose key was not seen before, in order |
| XivAlex.RemoveDuplicateRoots | XivAlexanderCommon/XivAlex.cpp:380-384 | The launcher list is de-duplicated with the key std::set<path> compares roots by |
| XivAlex.Dedup | XivAlexanderCommon/XivAlex.cpp:380-384 | The kept records are no more than the input, and a non-empty list keeps its first record first |
| XivAlex.FirstPositions | XivAlexanderCommon/XivAlex.cpp:380-384 | Exactly the positions whose record has a key no earlier record has, in increasing order |
| XivAlex.DedupInOrder | XivAlexanderCommon/XivAlex.cpp:380-384 | The kept records are the input's records at FirstPositions, so the first record of each key is kept and relative order is preserved |
| XivAlex.DedupSubset | XivAlexanderCommon/XivAlex.cpp:380-384 | Every kept record is a record of the input |
| XivAlex.DedupRoots | XivAlexanderCommon/XivAlex.cpp:380-384 | Every root of the input survives exactly once |
| XivAlex.DedupKeepsFirst | XivAlexanderCommon/XivAlex.cpp:380-384 | Each kept record is the first input record with its root |
| XivAlex.DedupSameKey | XivAlexanderCommon/XivAlex.cpp:380-384 | Of two records with the same key the later one is dropped |
| XivAlex.DedupMergesSpellings | XivAlexanderCommon/XivAlex.cpp:380-384 | Roots `C:/a//b` and `C:\a\b` are one element of the set, so the second record is dropped |
| XivAlex.StripTrailingNuls | XivAlexanderCommon/XivAlex.cpp:418-420 | The description with its trailing NULs removed: a prefix, not ending in NUL, followed only by NULs in the input |
| XivAlex.IsXivAlexanderDll | XivAlexanderCommon/XivAlex.cpp:389-427 | Errors for a missing or unreadable resource; false without a translation table; otherwise true iff some description, stripped and non-empty, is "XivAlexander Main DLL" |
| XivAlex.PaddedDescriptionRecognised | XivAlexanderCommon/XivAlex.cpp:418-424 | The description is recognised however much NUL padding it carries |
| AppCore.StoiResult | XivAlexander/App_App.cpp:310 | std::stoi on one piece: its value, or an error exactly when it throws |
| AppCore.Collect | XivAlexander/App_App.cpp:309-312 | All the values in order, or the first failure with every piece before it parsed |
| AppCore.CollectFailedPrefix | XivAlexander/App_App.cpp:309-312 | After a failure, later pieces do not change the outcome |
| AppCore.ParseComponents | XivAlexander/App_App.cpp:309-312 | The emplace_back(stoi) loop gives the pieces' values or the first stoi error |
| AppCore.CheckUpdates | XivAlexander/App_App.cpp:302-349 | The verdict, or the message of the caught exception, equal to VersionCheck; nothing escapes |
| AppCore.VersionCheck | XivAlexander/App_App.cpp:302-349 | A release name that does not parse gives its error, then a product version that does not parse gives its error; with both parsed, a count other than four on either side gives "Invalid format specification"; a verdict comes exactly when both parse with four numbers each |
| AppCore.ThreeComponentReleaseRefused | XivAlexander/App_App.cpp:309-314 | Release "v1.10.0" against 1.9.0.0 is refused with "Invalid format specification" |
| AppCore.VersionVerdicts | XivAlexander/App_App.cpp:313-327 | With four numbers each: update available iff local < remote, ahead iff remote < local, up to date iff equal |
| AppCore.VersionTextParses | XivAlexander/App_App.cpp:306-312 | Dotted decimal version text reads back as its numbers |
| AppCore.RemoteVersionExample | XivAlexander/App_App.cpp:306-310 | "1.10.0.0" parses to [1, 10, 0, 0] |
| AppCore.LocalVersionExample | XivAlexander/App_App.cpp:307-312 | "1.9.0.0" parses to [1, 9, 0, 0] |
| AppCore.MinorTenIsNewerThanNine | XivAlexander/App_App.cpp:315-327 | Release "v1.10.0.0" against local 1.9.0.0 is an available update: numbers, not text, are compared |
| AppCore.Process.constructor | XivAlexander/App_App.cpp:11-12 | No application registered and unloading enabled at start |
| AppCore.Process.SetDisableUnloading | XivAlexander/App_App.cpp:351-353 | Sets the flag and nothing else |
| AppCore.ReversedPush | XivAlexander/App_App.cpp:80-86 | The entry pushed last is run first |
| AppCore.Implementation.constructor | XivAlexander/App_App.cpp:102-105 | Empty cleanup stack and queue, depth 0, no tray window |
| AppCore.Implementation.OnCleanup | XivAlexander/App_App.cpp:80-86 | Pushes the action on top of the stack and changes nothing else |
| AppCore.Implementation.RunCleanup | XivAlexander/App_App.cpp:118-202 | Running one registered action undoes what it names (registration, window procedure, tray window) |
| AppCore.Implementation.Unwind | XivAlexander/App_App.cpp:107-113 | Sets quitting, runs every action in reverse registration order, leaves the stack empty and clears the registration |
| AppCore.Implementation.Load | XivAlexander/App_App.cpp:115-212 | Without the game window: the error, the three early actions run in reverse, nothing registered. When a call after the override throws: its message, every action registered so far run in reverse (the window procedure restored), the stack empty, nothing registered. Otherwise: the instance registered, the procedure overridden, all actions on the stack |
| AppCore.Implementation.StartHooks | XivAlexander/App_App.cpp:134-152 | The socket hook and tray window are created and their cleanups registered; a throw from either unwinds what is registered, and the tray window stays closed unless it was created |
| AppCore.Implementation.StartFeatures | XivAlexander/App_App.cpp:154-172 | The latency handler and opcode finder add their listener and reset; a throwing constructor unwinds all registered actions |
| AppCore.Implementation.StartLoggers | XivAlexander/App_App.cpp:174-202 | The two loggers and the log window add their listener and reset; a throwing constructor unwinds all registered actions |
| AppCore.Implementation.FailLate | XivAlexander/App_App.cpp:204-211 | The catch block: quit, run the registered actions in reverse, clear the registration, rethrow the message |
| AppCore.RegisteredBefore | XivAlexander/App_App.cpp:129-202 | Each throwing call comes after the window procedure's restoration is registered and before the last action is, right after the restoration or a reset action |
| AppCore.LateUnwindOrder | XivAlexander/App_App.cpp:204-211 | After a late throw, the last registered action runs first, the window procedure is restored last among the late actions, and the three early actions follow |
| AppCore.Implementation.DrainQueue | XivAlexander/App_App.cpp:53-61 | Runs the queued functions front first until the queue is empty |
| AppCore.Implementation.OverriddenWndProc | XivAlexander/App_App.cpp:50-74 | At depth 0 the queue runs in FIFO order before the nested call; deeper, nothing runs and arrivals wait; the depth is restored |
| AppCore.Implementation.CallOriginalWndProc | XivAlexander/App_App.cpp:70-72 | Nested messages only queue functions, in arrival order |
| AppCore.Implementation.QueueRunOnMessageLoop | XivAlexander/App_App.cpp:256-259 | Appends to the back of the queue |
| AppCore.Implementation.Unload | XivAlexander/App_App.cpp:290-300 | The verdict of the guards; a tray window is sent one close request only on success |
| AppCore.UnloadVerdict | XivAlexander/App_App.cpp:291-295 | Passes iff unloading is enabled and the procedure is still the override; the disabled check comes first |
| AppCore.CreateApp | XivAlexander/App_App.cpp:215-221 | As written a second application fails and clears the registration of the first |
| AppCore.CreateAppChecked | XivAlexander/App_App.cpp:215-221 | A second application fails and leaves the registered one alone; otherwise Load's outcome, quitting included (set exactly when Load throws or was already set) |
| LogWindow.StyleOf | XivAlexander/App_Window_LogWindow.cpp:7-12 | Every level but Unset has a style among STYLE_LASTPREDEFINED+0..3; Unset makes `at` throw |
| LogWindow.StylesDistinct | XivAlexander/App_Window_LogWindow.cpp:7-12 | The four levels have four different styles |
| LogWindow.CategoryName | XivAlexander/App_Window_LogWindow.cpp:14-22 | Every listed category has a non-empty tab-free name; an unlisted one makes `at` throw |
| LogWindow.CategoryNamesDistinct | XivAlexander/App_Window_LogWindow.cpp:14-22 | Different categories have different names |
| LogWindow.FormatLine | XivAlexander/App_Window_LogWindow.cpp:73-79 | Fails with the `at` message iff the category is unlisted; a line ends in a newline |
| LogWindow.DateFields | XivAlexander/App_Window_LogWindow.cpp:74-75 | The date is 10 characters: year, '-', month, '-', day, zero-padded to 4, 2, 2 |
| LogWindow.ClockFields | XivAlexander/App_Window_LogWindow.cpp:74-77 | The time is 12 characters: hours ':' minutes ':' seconds '.' milliseconds, widths 2, 2, 2, 3 |
| LogWindow.TimestampFields | XivAlexander/App_Window_LogWindow.cpp:74-77 | The timestamp is 23 characters: the date, a space, the time |
| LogWindow.LineLayout | XivAlexander/App_Window_LogWindow.cpp:74-79 | A line is the timestamp, a tab, the category name, a tab, the message and a newline |
| LogWindow.Runs | XivAlexander/App_Window_LogWindow.cpp:66-72 | The batch cut into non-empty runs, ending with the last entry's line and level |
| LogWindow.RunsMaximal | XivAlexander/App_Window_LogWindow.cpp:67-72 | Neighbouring runs have different levels |
| LogWindow.RunsKeepLines | XivAlexander/App_Window_LogWindow.cpp:66-80 | The runs hold every line once, in order |
| LogWindow.RunCount | XivAlexander/App_Window_LogWindow.cpp:66-72 | A non-empty batch has one run more than level changes |
| LogWindow.Cumulative | XivAlexander/App_Window_LogWindow.cpp:66-83 | One flush per run, tagged with that run's level |
| LogWindow.PerRun | XivAlexander/App_Window_LogWindow.cpp:66-83 | Corrected: one flush per run, carrying exactly that run's lines at its level |
| LogWindow.CumulativeRepeats | XivAlexander/App_Window_LogWindow.cpp:68-70 | As written each flush repeats the whole previous flush before its own run |
| LogWindow.CumulativePrefix | XivAlexander/App_Window_LogWindow.cpp:68-70 | The k-th flush as written is all lines of the first k runs |
| LogWindow.CumulativeLast | XivAlexander/App_Window_LogWindow.cpp:82-83 | The last flush as written carries the whole batch at the last entry's level |
| LogWindow.PerRunKeepsText | XivAlexander/App_Window_LogWindow.cpp:63-84 | With the stream emptied at each flush, the window receives every line exactly once, in order |
| LogWindow.CumulativeIsPerRunSoFar | XivAlexander/App_Window_LogWindow.cpp:68-70 | The j-th flush as written is everything the first j+1 corrected flushes carry |
| LogWindow.AsWrittenRepeatsEarlierRun | XivAlexander/App_Window_LogWindow.cpp:68-70 | Two lines at two levels: as written the second flush is both lines; corrected it is the second line |
| LogWindow.FormatLineIsLineFormatter | XivAlexander/App_Window_LogWindow.cpp:73-79 | The formatter fails exactly on unlisted categories and yields non-empty lines otherwise |
| LogWindow.FirstUnlisted | XivAlexander/App_Window_LogWindow.cpp:78 | The first item whose category name lookup throws, or the batch length |
| LogWindow.FedAsWritten | XivAlexander/App_Window_LogWindow.cpp:66-81 | Fed item by item as written, the stream holds every line so far and the flushes are all but the last of Cumulative |
| LogWindow.FedPerRun | XivAlexander/App_Window_LogWindow.cpp:66-81 | Fed with the stream emptied, it holds the current run and the flushes are all but the last of PerRun |
| LogWindow.AsWrittenAtLevel | XivAlexander/App_Window_LogWindow.cpp:67-69 | A flush happens at a change of level only when text was written, and once at the end |
| LogWindow.FedFails | XivAlexander/App_Window_LogWindow.cpp:67-78 | The flushes made before the first unlisted item throws |
| LogWindow.FedDone | XivAlexander/App_Window_LogWindow.cpp:82-83 | A batch without unlisted items finishes with Cumulative of its runs as written, PerRun of its runs when the stream is emptied |
| LogWindow.AddLogAsWritten | XivAlexander/App_Window_LogWindow.cpp:63-84 | The loop as written, with the window's formatter, flushes Cumulative of the runs; at an unlisted category it fails with the `at` message after the flushes made before that item |
| LogWindow.AddLog | XivAlexander/App_Window_LogWindow.cpp:63-84 | The corrected loop flushes one run per flush, each carrying only that run's lines; at an unlisted category it fails with the `at` message after the flushes made before that item |
| SqpackExport.SlashChar | ScratchProject/Source.cpp:39-41 | Never yields '\\' and keeps separators separators |
| SqpackExport.ForwardSlashes | ScratchProject/Source.cpp:39-41 | The in-place loop turns every '\\' of the directory part into '/' |
| SqpackExport.Normalise | ScratchProject/Source.cpp:36-44 | The full path built for a relative path is its logical path |
| SqpackExport.LogicalPathName | ScratchProject/Source.cpp:38-44 | The logical path's file name is the lowercased file name |
| SqpackExport.LogicalPathParent | ScratchProject/Source.cpp:37-44 | For a file below a subfolder, the logical path's parent is the slashed, lowercased parent |
| SqpackExport.LogicalPathIsNormal | ScratchProject/Source.cpp:39-44 | A logical path holds a slash and has no backslash and no uppercase letter |
| SqpackExport.LogicalPathIdempotent | ScratchProject/Source.cpp:36-44 | For a file below a subfolder, normalising the logical path again changes nothing |
| SqpackExport.LogicalPathIgnoresCase | ScratchProject/Source.cpp:42-43 | Paths differing only in case map to the same logical path |
| SqpackExport.LogicalPathIgnoresSeparatorStyle | ScratchProject/Source.cpp:39-41 | Paths differing only in separator style map to the same logical path |
| SqpackExport.LogicalPathAgrees | ScratchProject/Source.cpp:36-44 | Paths equal after slashing and lowering have the same logical path |
| SqpackExport.LogicalPathOfDirectChild | ScratchProject/Source.cpp:37-44 | A file directly under the replacement root becomes "/" and its lowercased name |
| SqpackExport.DirectChildNormalisedTwice | ScratchProject/Source.cpp:37-44 | For a file directly under the root, normalising again adds one more leading slash, because "/" becomes the parent |
| SqpackExport.ReplacementRoot | ScratchProject/Source.cpp:30 | The replacement folder followed by the index's extension and its file name's alternate data stream is the index path |
| SqpackExport.AddOverrides | ScratchProject/Source.cpp:31-47 | The walk adds one override per file, in walk order, skipping directories |
| SqpackExport.OverridesAreNormal | ScratchProject/Source.cpp:31-47 | There is one override per file and each logical path is normal |
| SqpackExport.IndexNameHasIndexExtension | ScratchProject/Source.cpp:21-24 | The extension test after the name test never refuses anything |
| SqpackExport.IsIndexName | ScratchProject/Source.cpp:21-24 | A child passes the name test and the extension test iff its name is 000000.win32.index |
| SqpackExport.IndexNameStreamless | ScratchProject/Source.cpp:21-24 | 000000.win32.index is its own file name and has no alternate data stream |
| SqpackExport.FindIndexName | ScratchProject/Source.cpp:19-24 | The inner loop succeeds iff the folder holds 000000.win32.index |
| SqpackExport.SelectIndex | ScratchProject/Source.cpp:14-24 | The nested loops with the early return give the first ffxiv directory holding the index |
| SqpackExport.FirstIndexFound | ScratchProject/Source.cpp:14-24 | An index is found iff some ffxiv directory holds one, and it is root\ffxiv\000000.win32.index |
| SqpackExport.IndexPathParts | ScratchProject/Source.cpp:19-20 | The found path's filename is the index name and its parent the ffxiv folder |
| SqpackExport.IndexPathExtension | ScratchProject/Source.cpp:23 | The found path's extension is ".index", and its file name has no alternate data stream |
| SqpackExport.IndexReplacementRoot | ScratchProject/Source.cpp:30 | Its replacement folder is root\ffxiv\000000.win32 |
| SqpackExport.ReadPosIsSum | ScratchProject/Source.cpp:57-66 | The offset after k reads is the sum of the chunk sizes |
| SqpackExport.EndOfStreamUnique | ScratchProject/Source.cpp:61-63 | The first zero-byte read is unique |
| SqpackExport.ReadToEnd | ScratchProject/Source.cpp:59-65 | The read-until-zero loop stops at the first empty read with the offset the sum of all chunks |
| SqpackExport.ReadAllData | ScratchProject/Source.cpp:57-66 | Each data file is read to its end; the offset is that of the last one |
| SqpackExport.CopyToEnd | ScratchProject/Source.cpp:74-83 | The write-advance loop stops at the first empty read, advancing by what each write reports |
| SqpackExport.CopyMatchesRead | ScratchProject/Source.cpp:76-82 | With writes that write everything, copying stops where reading stops, at the same offset |
| SqpackExport.ExportNameFromStem | ScratchProject/Source.cpp:69 | An export name is the stem followed by the dotted extension |
| SqpackExport.ExportExtensions | ScratchProject/Source.cpp:69-111 | ".index", ".index2", then ".dat0" to ".datN-1" |
| SqpackExport.ExportExtensionsDistinct | ScratchProject/Source.cpp:69-111 | The extensions are pairwise distinct |
| SqpackExport.ExportNamesDistinct | ScratchProject/Source.cpp:69-111 | The export names are pairwise distinct (no file overwrites another) and each is the replace_extension name |
| SqpackExport.CopyEach | ScratchProject/Source.cpp:69-111 | Each stream is copied to its own name until its end |
| SqpackExport.Export | ScratchProject/Source.cpp:69-111 | index, index2 and each dat are written, each copied until its first empty read |

## Left out

- The archive engine (`VirtualSqPack`). Its source is not part of this model. It becomes `Reader` (bytes returned at an offset) and `Writer` (bytes written at an offset) functions.
  - Adding entries, `Freeze`, and the two probe reads at ScratchProject/Source.cpp:54-55 are not modelled.
  - The bytes themselves are not modelled, only the counts.
- SqpackExport.ReadToEnd, SqpackExport.ReadAllData, SqpackExport.CopyToEnd, SqpackExport.CopyEach, SqpackExport.Export: termination assumes that each stream eventually returns 0. A ghost `ends` argument witnesses this; the source loops forever otherwise.
- SqpackExport.Export: the three export blocks are modelled as one loop over the names. File creation, the console output and the exception handler that rethrows are left out.
- SqpackExport.AddOverrides: the recursive directory walk is given as a sequence of relative paths with a directory flag. `proximate` and `is_directory` are that input.
- Text.Lower: CharLowerW/CharLowerA are modelled as ASCII lowercasing. Locale rules are left out, and so is CharLowerA stopping at an embedded NUL.
- Text.Stoi: leading whitespace, a sign, digits and the int range are modelled. Locale-dependent whitespace is not.
- LoaderApp.LoaderParameter.Parse: `argparse` itself is left out. Its result is an input (option values, flags, remaining targets, or the message it throws).
  - The options' converters are assumed to run in declaration order.
  - Re-joining the arguments into one command line (`ReverseCommandLineToArgvW`) is not modelled; the arguments are kept as a sequence.
- LoaderApp.DecidedAction: the message boxes are answers given as input. The existence test of the game configuration file only chooses between two prompts with the same outcomes, so it is left out.
- LoaderApp.PlanPidTask: the outcome of `XivAlex::ResolveGameReleaseRegion` is an input (`release`), because the process's image path and the files it names are operating-system state. A thrown lookup abandons the task with its message.
- LoaderApp.PlanPidTask: follows the code as written, so a process of the other bitness is relaunched with the `RelaunchArgsAsWritten` line (see the Findings).
- Process access and injection are left out: `RequiresAdminAccess`, `RestartElevated`, `RunProgram`, `RunLauncher`, `OpenProcessForInjection` and the remote calls. The loader's `wWinMain` is modelled only in its reaction to an empty pid list.
- `GetHelpMessage` and the `--web` shell call are left out: they are user interface.
- XivAlex: `TestPublisher` (Authenticode), the registry and file probing of `FindGameLaunchers`, and `XivAlex::CheckUpdates` (network, JSON, time zones) are left out. Their results are inputs: the publisher countries, the registry views, the launcher records, the release name.
- XivAlex.UnknownRegionName: zlib's CRC-32 is a function parameter, not an implementation.
- XivAlex.ReleaseRegion and XivAlex.ResolveGameReleaseRegion: follow the code as written (`max_element` over the map gives the greatest key); XivAlex.ReleaseRegionByCount is the corrected choice (see the Findings).
- FsPath: network (UNC) root names such as `\\server\share` are not modelled; only drive-letter root names and root directories are. The root-name comparison in `Combine` compares characters exactly, so case differences in drive letters count.
- SqpackExport.Normalise and SqpackExport.LogicalPath: `path::string()` converts to the ANSI code page, and `CharLowerA` lowercases by that code page; the model keeps the characters and lowercases ASCII only.
- Text.Split: the body of `Utils::StringSplit` is not part of this model; the split assumed keeps empty pieces.
- Text.StrLess: compares code points, where `std::wstring`'s `operator<` compares UTF-16 code units. The two orders agree on text without characters above U+FFFF, which covers the country codes it sorts.
- AppCore: the tray window's menu, `SetupTrayWindow`, `App::Run`, the cross-thread event wait of `QueueRunOnMessageLoop`, the mutex, and the WM_DESTROY forwarding in the window procedure are left out. The queue is modelled single-threaded.
- AppCore.Implementation.Load: whether a call after the override throws, and which one, is an input (`fault`). The configuration that decides which features are created is not modelled, so every feature constructor counts as a possible throw point. A throw from `OnChangeListener` or from registering a cleanup is not modelled.
- AppCore.Implementation.RunCleanup: only the registration, the window procedure and the tray window are tracked. The feature objects and configuration listeners each cleanup releases are named but carry no state.
- AppCore.CheckUpdates: the log line and the message box and browser choice after the verdict are left out; the verdict is the result.
- LogWindow: `SYSTEMTIME` conversion from the log timestamp, Scintilla calls, `FlushLog` (including its line trim) and the window itself are left out. `STYLE_LASTPREDEFINED` is taken as 39, its Scintilla value.
- LogWindow: the batching lemmas (`FedAsWritten`, `FedPerRun`, `FedFails`, `FedDone`) hold for any formatter with the properties of `LineFormatter`; `AddLog` and `AddLogAsWritten` use `FormatLine`.

## Findings

The members that model whole source functions follow the code as written: `ReleaseRegion` and `ResolveGameReleaseRegion` pick the greatest key, and `PlanPidTask` relaunches with `RelaunchArgsAsWritten`. Each corrected member stands beside its as-written twin, with the intended property proved about it.

| source | as written | input that shows it | evidently intended | confidence | as-written member | corrected member |
|---|---|---|---|---|---|---|
| XivAlexanderLoader/App.cpp:316-319 | The relaunch format "{}-a {} {}" puts the action's name before "-a" and gives "-a" the quiet flag or the pid | action Load, not quiet, pid 42 gives "load-a  42" | "-a load 42", with "-q " before the pid when quiet | not executed; high | LoaderApp.RelaunchArgsAsWrittenLosesAction | LoaderApp.RelaunchArgsRoundTrip |
| XivAlexander/App_Window_LogWindow.cpp:68-70 | `o.clear()` resets only the stream's flags, so every flush repeats all earlier text of the batch | an Info line x then an Error line y: the second flush is x+y at Error level | each flush carries only its own run | not executed; high | LogWindow.AsWrittenRepeatsEarlierRun | LogWindow.PerRunKeepsText |
| XivAlexanderCommon/XivAlex.cpp:128-129 | max_element over the map compares (country, count) pairs by country first, so the count never matters | two files signed "CN" and one signed "KR" give region "KR" | the country with the most signed files | not executed; medium | XivAlex.GreatestKeyIgnoresCounts | XivAlex.ReleaseRegionByCount |
| XivAlexander/App_App.cpp:215-221 | The implementation is created before the "already initialized" check; the throw destroys it and its destructor clears s_pInstance | construct a second App while one is registered: the first is no longer registered | fail without touching the registered application | not executed; medium | AppCore.CreateApp | AppCore.CreateAppChecked |
| XivAlexanderLoader/App.cpp:213-216, 543-546 | GetTargetPidList fills in the default suffixes, so the later "nothing named" test never holds | no targets, action Load, not quiet, no game running: "No matching process found." | "ffxiv_dx11.exe not found. Run the game first, and then try again." | not executed; high | LoaderApp.NoMatchReactionAsWrittenNeverSaysNotRunning | LoaderApp.NoMatchReaction |
