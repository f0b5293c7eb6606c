# ResChiper resource obfuscation, modelled in Dafny

This project models the resource-obfuscation engine of ResChiper, a Gradle plugin that
shrinks and obfuscates the resources of an Android App Bundle. It also models the pure
helpers and the archive transforms that share the engine's data model. Protobuf tables,
zip entries and hashes become plain Dafny datatypes (`BundleModel` in `model.dfy`):
a bundle holds modules, a module holds entries (a path as a sequence of names, plus
opaque bytes) and an optional resource table, and a table holds packages, types, entries
and config values whose item is a file path, a string or something else.

The modules follow the program's classes:

- `StringObfuscator` (`stringobfuscator.dfy`) is the name pool. `reset` builds the 1–3
  character names in a fixed order and leaves out names the blacklist globs match.
  `getReplaceString` hands out the first name not already in use. `removeStrings`
  deletes names from the pool.
- `Utils` (`utils.dfy`, `regex.dfy`) covers the glob-to-regex conversion (`replaceEach`
  with its search tracker), the full-match test `match`, and `isPresent`/`isBlank`.
  A recursive glob matcher takes the place of `java.util.regex`.
- `FileOperation` and `AppBundleUtils` are the string helpers for file names, zip paths,
  resource full names (`pkg.R.type.entry`) and hex digests.
- `ResourceMapping` is the ledger: its five maps, the guarded `putResourceMapping`, and
  the written ledger as a sequence of lines. `ResourcesMappingParser` (`mappingparser.dfy`)
  is the line parser. `MappingLedger` (`ledger.dfy`) proves that parsing the written
  ledger gives its maps back.
- `ResourcesObfuscator` (`obfuscator.dfy`) covers:
  - seeding the names in use from a prior mapping;
  - the directory pass, the resource-entry pass and the file pass;
  - the collision check, the module rewrite and the table rewrite;
  - the bundle-level driver.
- `ResourceTableOperation` and `ResourceTableBuilder` cover single-field entry edits, the
  duplicate-config check, and the grouped rebuild of a table.
- `DuplicateResourceMerger` keeps the first `res/` entry per content hash and redirects
  table references to it.
- `BundleStringFilter` prunes locales and blanks unused strings. `BundleFileFilter`
  removes rule-matched entries and metadata and prunes native directories.
  `NativeLibrariesOperation` removes a native directory.
- `TimeClock` is the elapsed-time text.

Exceptions become a `Result` whose error names the Java exception kind. The Java hash
collections the passes read (bundle modules, rule sets, the ledger's maps) are iterated
in an order the caller supplies as a sequence, and the properties about them hold for
every such order. Two hash orders are not modelled that way: the package order of a
rebuilt table and the module order of a returned bundle (see "## Left out").

## Model

| member | source | states |
|---|---|---|
| StringObfuscator.Alphabets | src/main/java/io/github/goldfish07/reschiper/plugin/obfuscation/StringObfuscator.java:17-24 | the first alphabet has 26 letters and the second 37 characters, and the model's position formulas give each of their characters |
| StringObfuscator.CandidatesExactly | src/main/java/io/github/goldfish07/reschiper/plugin/obfuscation/StringObfuscator.java:47-64 | the three generating loops produce exactly the well-formed names: one to three characters, a lower-case letter first, then digits, `_` or lower-case letters |
| StringObfuscator.CandidatesAscending | src/main/java/io/github/goldfish07/reschiper/plugin/obfuscation/StringObfuscator.java:47-64 | the loops produce names in strictly increasing rank: shorter names first, then by alphabet position |
| StringObfuscator.Reset | src/main/java/io/github/goldfish07/reschiper/plugin/obfuscation/StringObfuscator.java:42-65 | both id sets end empty; the pool holds exactly the well-formed names that are not reserved file names and that no blacklist pattern matches; the pool is in rank order and has no duplicates |
| StringObfuscator.ResetPoolMembers | src/main/java/io/github/goldfish07/reschiper/plugin/obfuscation/StringObfuscator.java:47-64 | a name is in the pool if and only if it is well-formed, not reserved, and admitted by the blacklist |
| StringObfuscator.ResetPoolOrder | src/main/java/io/github/goldfish07/reschiper/plugin/obfuscation/StringObfuscator.java:47-64 | the pool is ordered by rank, and therefore has no duplicates |
| StringObfuscator.ResetIsFilter | src/main/java/io/github/goldfish07/reschiper/plugin/obfuscation/StringObfuscator.java:47-64 | the three loops together equal one filter of the whole candidate list with the three-character test; the reserved-name check never rejects a shorter name |
| StringObfuscator.TriplesWithoutBlacklist | src/main/java/io/github/goldfish07/reschiper/plugin/obfuscation/StringObfuscator.java:58-64 | without a blacklist, 35590 of the 35594 three-character names survive: only the four reserved names are dropped |
| StringObfuscator.ResetWithoutBlacklist | src/main/java/io/github/goldfish07/reschiper/plugin/obfuscation/StringObfuscator.java:47-64 | `reset(null)` gives 36578 names: the 26 one-letter names first, then the 962 two-character names |
| StringObfuscator.ResetFirstNames | src/main/java/io/github/goldfish07/reschiper/plugin/obfuscation/StringObfuscator.java:47-56 | the unfiltered pool starts with "a", and its two-character part starts with "a0", "a1" |
| StringObfuscator.RemoveStrings | src/main/java/io/github/goldfish07/reschiper/plugin/obfuscation/StringObfuscator.java:72-76 | a null collection changes nothing; otherwise a name stays in the pool if and only if it was there and is not in the collection; the id sets are untouched; a duplicate-free pool shrinks by the number of shared names |
| StringObfuscator.FirstFree | src/main/java/io/github/goldfish07/reschiper/plugin/obfuscation/StringObfuscator.java:126-132 | the loop finds the first pool position whose name is not in use; it finds none if and only if every name from there on is in use |
| StringObfuscator.ChosenIndex | src/main/java/io/github/goldfish07/reschiper/plugin/obfuscation/StringObfuscator.java:123-133 | the position taken is the first name not in use when there is one; it is the head when `names` is null or every name is in use |
| StringObfuscator.GetReplaceString | src/main/java/io/github/goldfish07/reschiper/plugin/obfuscation/StringObfuscator.java:123-134 | fails with IllegalArgumentException if and only if the pool is empty; otherwise returns the chosen name and removes exactly that position, keeping the order of the rest |
| StringObfuscator.MintedNameLeavesPool | src/main/java/io/github/goldfish07/reschiper/plugin/obfuscation/StringObfuscator.java:123-134 | from a duplicate-free pool, the returned name is gone from the remaining pool; the pool stays duplicate-free and is one shorter, so successive calls never repeat a name |
| StringObfuscator.ReusedOnlyWhenExhausted | src/main/java/io/github/goldfish07/reschiper/plugin/obfuscation/StringObfuscator.java:126-133 | a name already in use is handed out only when every pool name is in use |
| StringObfuscator.SetInReplaceList | src/main/java/io/github/goldfish07/reschiper/plugin/obfuscation/StringObfuscator.java:112-114 | afterwards the id counts as replaced; no other id changes, and neither the pool nor the whitelist changes |
| StringObfuscator.IsReplacedAfter | src/main/java/io/github/goldfish07/reschiper/plugin/obfuscation/StringObfuscator.java:84-86 | after any run of `setInReplaceList` calls, `isReplaced(id)` holds exactly when it held before or one of the calls added `id` |
| StringObfuscator.SetInWhiteList | src/main/java/io/github/goldfish07/reschiper/plugin/obfuscation/StringObfuscator.java:103-105 | afterwards the id is whitelisted; no other id changes, and neither the pool nor the replaced set changes |
| StringObfuscator.IsInWhiteListAfter | src/main/java/io/github/goldfish07/reschiper/plugin/obfuscation/StringObfuscator.java:94-96 | after any run of `setInWhiteList` calls, `isInWhiteList(id)` holds exactly when it held before or one of the calls added `id` |
| Utils.IsBlank | src/main/java/io/github/goldfish07/reschiper/plugin/utils/Utils.java:12-18 | blank if and only if the text is null or empty, the negation of `isPresent` |
| Utils.IteratorIsBlank | src/main/java/io/github/goldfish07/reschiper/plugin/utils/Utils.java:20-26 | blank if and only if the iterator is null or yields nothing |
| Utils.EarliestSpec | src/main/java/io/github/goldfish07/reschiper/plugin/utils/Utils.java:153-174 | the tracker's answer is an occurrence at or after `start` of one of the patterns, and no pattern occurs earlier; there is no answer if and only if no pattern occurs |
| Utils.ReplaceEach | src/main/java/io/github/goldfish07/reschiper/plugin/utils/Utils.java:115-118 | a text in which no search string occurs is returned unchanged |
| Utils.NextGlobMatch | src/main/java/io/github/goldfish07/reschiper/plugin/utils/Utils.java:153-174 | over the four glob search strings, the tracker stops at the first glob character at or after `start`, and at none if and only if no glob character remains |
| Utils.ConvertIsPerChar | src/main/java/io/github/goldfish07/reschiper/plugin/utils/Utils.java:28-35 | `convertToPatternString` equals the per-character reference: `.` becomes `\.`, `?`, `*` and `+` get a dot before them, and every other character is copied |
| Utils.ConvertAppend | src/main/java/io/github/goldfish07/reschiper/plugin/utils/Utils.java:28-35 | converting a concatenation is concatenating the conversions |
| Utils.ConvertByCharPlain | src/main/java/io/github/goldfish07/reschiper/plugin/utils/Utils.java:116-118 | a text without glob characters converts to itself |
| Utils.CompileRule | src/main/java/io/github/goldfish07/reschiper/plugin/utils/Utils.java:28-35 | the converted text of a rule in the supported fragment parses as that rule's glob pattern: `?` an optional dot, `*` a starred dot, `+` a plussed dot, everything else a literal |
| Utils.LiteralRule | src/main/java/io/github/goldfish07/reschiper/plugin/utils/Utils.java:28-42 | a rule without wildcards matches exactly its own text, with a `.` in it read as a literal dot |
| Utils.PrefixStarSuffix | src/main/java/io/github/goldfish07/reschiper/plugin/utils/Utils.java:28-42 | a rule `p*q` with literal `p` and `q` matches exactly the texts that start with `p` and end with `q` without overlap, with no line terminator in between |
| Utils.Match | src/main/java/io/github/goldfish07/reschiper/plugin/utils/Utils.java:37-46 | true for a null pattern set; otherwise true if and only if no pattern matches the whole text |
| Regex.StarAny | src/main/java/io/github/goldfish07/reschiper/plugin/utils/Utils.java:32-34 | a starred dot followed by more pattern matches a text exactly when some prefix without line terminators is followed by a match of the rest |
| FileOperation.FileSimpleName | src/main/java/io/github/goldfish07/reschiper/plugin/operations/FileOperation.java:209-211 | the last name of the path; the empty path has no file name and fails |
| FileOperation.FileSuffix | src/main/java/io/github/goldfish07/reschiper/plugin/operations/FileOperation.java:219-226 | a last name without a dot is returned whole; a name of dots and slashes alone fails; otherwise the result is the name from its first dot on, so "x.9.png" gives ".9.png" |
| FileOperation.FilePrefixByFileName | src/main/java/io/github/goldfish07/reschiper/plugin/operations/FileOperation.java:262-268 | a name without a dot fails with IllegalArgumentException, and a name of dots alone fails too; otherwise the result is the dot-free text before the first dot |
| FileOperation.PrefixSuffix | src/main/java/io/github/goldfish07/reschiper/plugin/operations/FileOperation.java:219-268 | for a file name with a dot and a character other than dots, prefix followed by suffix gives back the name |
| FileOperation.NameFromZipFilePath | src/main/java/io/github/goldfish07/reschiper/plugin/operations/FileOperation.java:248-254 | a text without a slash fails with IllegalArgumentException, and a text of slashes alone fails too; otherwise the result is the last non-empty slash-free piece, which for a text not ending in a slash is its tail after the last slash |
| FileOperation.ParentFromZipFilePath | src/main/java/io/github/goldfish07/reschiper/plugin/operations/FileOperation.java:234-240 | fails where the name fails; otherwise the result ends one character before the FIRST occurrence of the name, and it fails exactly when that occurrence is at the start |
| FileOperation.PathParentAndName | src/main/java/io/github/goldfish07/reschiper/plugin/operations/FileOperation.java:234-254 | for the text of a path whose last name first occurs at its end, the two helpers give back that last name and the parent path's text |
| FileOperation.ParentFirstOccurrence | src/main/java/io/github/goldfish07/reschiper/plugin/operations/FileOperation.java:238-239 | the first-occurrence search cuts short a parent that ends with the name: "ab/b" gives the parent "" and "b/b" fails |
| FileOperation.NetFileSizeDescription | src/main/java/io/github/goldfish07/reschiper/plugin/operations/FileOperation.java:100-120 | "0B" for a size of at most 0; the decimal digits followed by "B" for 1 to 1023; otherwise KB, MB or GB, chosen by the thresholds 1024, 1024^2 and 1024^3, so that the quotient is at least 1 and below 1024 except for GB |
| AppBundleUtils.ResourceParts | src/main/java/io/github/goldfish07/reschiper/plugin/bundle/AppBundleUtils.java:108-130 | the text after the first ".R." is split at dots and slashes and must give exactly two pieces; the substring fails exactly when there is no ".R." and the name is shorter than two characters; the pieces hold no dot or slash and the entry piece is non-empty |
| AppBundleUtils.TypeNameByResourceName | src/main/java/io/github/goldfish07/reschiper/plugin/bundle/AppBundleUtils.java:123-130 | succeeds exactly when the name splits into two pieces, and then returns a type name without dot or slash |
| AppBundleUtils.EntryNameByResourceName | src/main/java/io/github/goldfish07/reschiper/plugin/bundle/AppBundleUtils.java:108-115 | succeeds exactly when the name splits into two pieces, and then returns a non-empty entry name without dot or slash |
| AppBundleUtils.ResourceNameRoundTrip | src/main/java/io/github/goldfish07/reschiper/plugin/bundle/AppBundleUtils.java:108-152 | the two readers recover the type and the entry from `getResourceFullName(p, t, e)` when `p` does not itself produce ".R." and `t`, `e` have no dot or slash, `e` non-empty |
| AppBundleUtils.MarkerAfterPackage | src/main/java/io/github/goldfish07/reschiper/plugin/bundle/AppBundleUtils.java:150-152 | the first ".R." of a full name is the one written after the package name, unless the package name already produces one |
| AppBundleUtils.HexText | src/main/java/io/github/goldfish07/reschiper/plugin/bundle/AppBundleUtils.java:94 | `Integer.toHexString` of a non-negative value is at least one digit, with no leading zero |
| AppBundleUtils.BytePiece | src/main/java/io/github/goldfish07/reschiper/plugin/bundle/AppBundleUtils.java:93-97 | each byte, read as unsigned, is written as exactly two lowercase hex digits, zero-padded, that read back as that byte |
| AppBundleUtils.ParseHexAppend | src/main/java/io/github/goldfish07/reschiper/plugin/bundle/AppBundleUtils.java:92-98 | reading the concatenation of two readable texts reads the two byte sequences one after the other |
| AppBundleUtils.BytesToHexString | src/main/java/io/github/goldfish07/reschiper/plugin/bundle/AppBundleUtils.java:88-100 | the text has two lowercase hex digits per byte, empty for no bytes, and reads back into exactly the bytes given, so the encoding is injective |
| ResourceMapping.ResourceSimpleName | src/main/java/io/github/goldfish07/reschiper/plugin/bundle/ResourceMapping.java:42-45 | a name without a slash is returned whole; a non-empty name of slashes alone fails; otherwise the result is slash-free and, for a name not ending in a slash, is its tail after the last slash |
| ResourceMapping.PutDirMapping | src/main/java/io/github/goldfish07/reschiper/plugin/bundle/ResourceMapping.java:80-82 | records raw to obfuscated without any collision check; every other directory key and every other map are unchanged |
| ResourceMapping.PutResourceMapping | src/main/java/io/github/goldfish07/reschiper/plugin/bundle/ResourceMapping.java:91-95 | fails with IllegalArgumentException exactly when the obfuscated name is already a value of the map, even under the same key; otherwise records it, changes no other key or map, and keeps an injective map injective |
| ResourceMapping.PutEntryFileMapping | src/main/java/io/github/goldfish07/reschiper/plugin/bundle/ResourceMapping.java:103-105 | records the entry file without any collision check; every other key and map is unchanged |
| ResourceMapping.AddResourceNameAndId | src/main/java/io/github/goldfish07/reschiper/plugin/bundle/ResourceMapping.java:129-131 | records the id of a resource name; nothing else changes |
| ResourceMapping.AddResourcePathAndId | src/main/java/io/github/goldfish07/reschiper/plugin/bundle/ResourceMapping.java:139-141 | records the id of an entry path; nothing else changes |
| ResourceMapping.PathMappingNameList | src/main/java/io/github/goldfish07/reschiper/plugin/bundle/ResourceMapping.java:112-121 | the names are exactly the last pieces of the directory values, an empty value giving the empty name; a value of slashes alone makes it fail |
| ResourceMapping.DirNameListed | src/main/java/io/github/goldfish07/reschiper/plugin/bundle/ResourceMapping.java:80-121 | after recording a directory as `prefix/name`, `name` is among the listed names |
| ResourceMapping.DirLines | src/main/java/io/github/goldfish07/reschiper/plugin/bundle/ResourceMapping.java:153-154 | one line per key, in the given order, each a tab, the raw path, " -> " and the obfuscated path |
| ResourceMapping.IdLines | src/main/java/io/github/goldfish07/reschiper/plugin/bundle/ResourceMapping.java:159-165 | one line per key, in the given order, each a tab, the id (or "null" when it has none), " : ", the raw name, " -> " and the obfuscated name |
| ResourceMapping.MappingLines | src/main/java/io/github/goldfish07/reschiper/plugin/bundle/ResourceMapping.java:149-180 | three sections, with headers at the positions the entry counts give; each section's lines are followed by two empty lines; nine lines in total besides the entries |
| ResourceMapping.EnumeratesSize | src/main/java/io/github/goldfish07/reschiper/plugin/bundle/ResourceMapping.java:153 | an enumeration of a key set lists each key once, so it has as many elements as the set |
| ResourcesMappingParser.LeadingSpace | src/main/java/io/github/goldfish07/reschiper/plugin/parser/ResourcesMappingParser.java:19-20 | the anchored `^\s+` takes the whole leading run of regex whitespace and stops at the first other character |
| ResourcesMappingParser.Body | src/main/java/io/github/goldfish07/reschiper/plugin/parser/ResourcesMappingParser.java:19-20 | the text the `.*` groups share: it starts after the leading whitespace, is a slice of the line and runs up to the first line terminator |
| ResourcesMappingParser.DirGroups | src/main/java/io/github/goldfish07/reschiper/plugin/parser/ResourcesMappingParser.java:19 | the directory pattern is found exactly when the line starts with whitespace and its body holds "->"; the groups then split the body at its last "->" |
| ResourcesMappingParser.ResGroups | src/main/java/io/github/goldfish07/reschiper/plugin/parser/ResourcesMappingParser.java:20 | when the resource pattern is found, the body is group 1, a colon, group 2, "->", then group 3; group 2 holds no colon and group 3 no arrow; a line without leading whitespace or without an arrow is never found |
| ResourcesMappingParser.ParseLine | src/main/java/io/github/goldfish07/reschiper/plugin/parser/ResourcesMappingParser.java:46-81 | empty lines and lines the pattern does not find leave the mapping as it is; a directory line fails exactly when it has no slash or has a dot; a line with a colon and a slash never touches the directory or resource maps; every failure is IllegalArgumentException; ids are never read back |
| ResourcesMappingParser.ParseFrom | src/main/java/io/github/goldfish07/reschiper/plugin/parser/ResourcesMappingParser.java:45-82 | the only failure is IllegalArgumentException, and the id maps are untouched |
| ResourcesMappingParser.Parse | src/main/java/io/github/goldfish07/reschiper/plugin/parser/ResourcesMappingParser.java:40-87 | a parsed mapping has empty id maps |
| ResourcesMappingParser.ParseFromAppend | src/main/java/io/github/goldfish07/reschiper/plugin/parser/ResourcesMappingParser.java:45-82 | parsing two runs of lines is parsing the first, stopping at its failure, then the second from its result |
| MappingLedger.ParseWritten | src/main/java/io/github/goldfish07/reschiper/plugin/parser/ResourcesMappingParser.java:40-87 | writing a ledger whose names the format can carry, in any key order, and parsing it back gives back the directory, resource and entry-file maps |
| MappingLedger.ParseLedger | src/main/java/io/github/goldfish07/reschiper/plugin/parser/ResourcesMappingParser.java:45-82 | the three written sections parse one after the other, each putting its keys in order |
| MappingLedger.ParseDirLine | src/main/java/io/github/goldfish07/reschiper/plugin/parser/ResourcesMappingParser.java:52-61 | a written directory line with a slash in the raw path and no dot parses to that directory mapping |
| MappingLedger.ParseResourceLine | src/main/java/io/github/goldfish07/reschiper/plugin/parser/ResourcesMappingParser.java:63-78 | a written resource line for a ".R." name without slashes, whose obfuscated name is free, parses to that resource mapping |
| MappingLedger.ParseEntryLine | src/main/java/io/github/goldfish07/reschiper/plugin/parser/ResourcesMappingParser.java:63-68 | a written entry-file line with a slash parses to that entry-file mapping |
| MappingLedger.ParseDirLines | src/main/java/io/github/goldfish07/reschiper/plugin/parser/ResourcesMappingParser.java:45-82 | a run of directory lines puts each listed directory, in order |
| MappingLedger.ParseResourceLines | src/main/java/io/github/goldfish07/reschiper/plugin/parser/ResourcesMappingParser.java:45-82 | a run of resource lines with pairwise distinct, still free obfuscated names puts each listed resource, in order, without failing |
| MappingLedger.ParseEntryLines | src/main/java/io/github/goldfish07/reschiper/plugin/parser/ResourcesMappingParser.java:45-82 | a run of entry-file lines puts each listed entry file, in order |
| MappingLedger.ParseSection | src/main/java/io/github/goldfish07/reschiper/plugin/parser/ResourcesMappingParser.java:46-50 | a section parses as its lines alone: its header and the two empty lines after it change nothing |
| TimeClock.ElapsedTime | src/main/java/io/github/goldfish07/reschiper/plugin/utils/TimeClock.java:22-35 | below a second the text ends in "ms"; from a second up to a minute it is the whole seconds in digits followed by "s"; from a minute on it starts with the whole minutes and "min", and is exactly that when under a second is left over |
| TimeClock.ShapeVisible | src/main/java/io/github/goldfish07/reschiper/plugin/utils/TimeClock.java:24-34 | which of the four forms the text takes (milliseconds, seconds, minutes, minutes and seconds) can be read off the text |
| TimeClock.ElapsedTimeDetermines | src/main/java/io/github/goldfish07/reschiper/plugin/utils/TimeClock.java:22-35 | equal texts mean equal milliseconds below a second, and equal whole seconds from a second on |
| TimeClock.MinutesSecondsDetermine | src/main/java/io/github/goldfish07/reschiper/plugin/utils/TimeClock.java:25-28 | two "Nmin Ms" texts that are equal come from the same whole number of seconds |
| TimeClock.MinutesDetermine | src/main/java/io/github/goldfish07/reschiper/plugin/utils/TimeClock.java:25-30 | two "Nmin" texts that are equal come from the same whole number of seconds |
| TimeClock.SecondsOfMinutes | src/main/java/io/github/goldfish07/reschiper/plugin/utils/TimeClock.java:25-26 | the whole seconds are sixty per whole minute plus the leftover whole seconds |
| NativeLibrariesOperation.DirectoryIndex | src/main/java/io/github/goldfish07/reschiper/plugin/operations/NativeLibrariesOperation.java:19-26 | the index found holds the path and no earlier directory does; when none is found, no directory holds the path |
| NativeLibrariesOperation.RemoveDirectory | src/main/java/io/github/goldfish07/reschiper/plugin/operations/NativeLibrariesOperation.java:18-31 | unchanged when no directory has the path; otherwise exactly one directory fewer; never a directory that was not there |
| NativeLibrariesOperation.RemoveDirectoryCounts | src/main/java/io/github/goldfish07/reschiper/plugin/operations/NativeLibrariesOperation.java:18-31 | exactly one directory with the path is taken away when there is one, and every other path keeps its count |
| NativeLibrariesOperation.RemoveDirectoryGone | src/main/java/io/github/goldfish07/reschiper/plugin/operations/NativeLibrariesOperation.java:18-31 | when paths are distinct, the removed path no longer occurs |
| ResourceTableOperation.ReplaceEntryPath | src/main/java/io/github/goldfish07/reschiper/plugin/operations/ResourceTableOperation.java:22-32 | the same configuration, now with a file item at the given path |
| ResourceTableOperation.UpdateEntryConfigValueList | src/main/java/io/github/goldfish07/reschiper/plugin/operations/ResourceTableOperation.java:41-46 | the entry keeps its id and name and has exactly the given config values |
| ResourceTableOperation.UpdateEntryName | src/main/java/io/github/goldfish07/reschiper/plugin/operations/ResourceTableOperation.java:55-59 | the entry keeps its id and values and takes the given name |
| ResourceTableOperation.CheckConfiguration | src/main/java/io/github/goldfish07/reschiper/plugin/operations/ResourceTableOperation.java:67-76 | succeeds exactly when no config value occurs twice in the entry, and fails with IllegalArgumentException otherwise |
| ResourceTableBuilder.PackageIndex | src/main/java/io/github/goldfish07/reschiper/plugin/bundle/ResourceTableBuilder.java:35-36 | the first package with the name, or none when no package has it |
| ResourceTableBuilder.TypeIndex | src/main/java/io/github/goldfish07/reschiper/plugin/bundle/ResourceTableBuilder.java:95-100 | the first type with the id, or none when no type has it |
| ResourceTableBuilder.AddPackage | src/main/java/io/github/goldfish07/reschiper/plugin/bundle/ResourceTableBuilder.java:34-41 | gives the package builder with the package's name; a known name changes nothing; an unknown one appends an empty package with the package's id and name; names stay unique |
| ResourceTableBuilder.EnsureType | src/main/java/io/github/goldfish07/reschiper/plugin/bundle/ResourceTableBuilder.java:95-114 | finds the type with the id, or appends an empty one with the type's id and name; type ids stay unique |
| ResourceTableBuilder.AddResource | src/main/java/io/github/goldfish07/reschiper/plugin/bundle/ResourceTableBuilder.java:123-133 | the entry, as it is, becomes the last entry of the type with the given id in that package; other packages, the package's name and id, and the uniqueness of names and type ids are kept; exactly one entry more |
| ResourceTableBuilder.AddOne | src/main/java/io/github/goldfish07/reschiper/plugin/bundle/ResourceTableBuilder.java:34-133 | adding a package and then a resource keeps the builder valid and adds exactly one entry |
| ResourceTableBuilder.AddAllCount | src/main/java/io/github/goldfish07/reschiper/plugin/bundle/ResourceTableBuilder.java:34-133 | adding entries one by one keeps the builder valid and adds exactly as many entries as were given |
| ResourceTableBuilder.RebuildCount | src/main/java/io/github/goldfish07/reschiper/plugin/bundle/ResourceTableBuilder.java:48-51 | a table built from a list of entries has exactly that many entries, unique package names and unique type ids per package |
| ResourceTableBuilder.RebuildConfigs | src/main/java/io/github/goldfish07/reschiper/plugin/bundle/ResourceTableBuilder.java:123-133 | a table built from entries whose config values all satisfy a property holds no config value without it |
| ResourceTableBuilder.AddAllConfigs | src/main/java/io/github/goldfish07/reschiper/plugin/bundle/ResourceTableBuilder.java:123-133 | adding entries whose config values all satisfy a property keeps every config value of the builder satisfying it |
| ResourceTableBuilder.RebuildMapped | src/main/java/io/github/goldfish07/reschiper/plugin/bundle/ResourceTableBuilder.java:34-51 | rebuilding the entries of a well-formed table without empty packages, each changed by the same function, gives the table back with only its entries changed, in place |
| ResourceTableBuilder.AddAllPackages | src/main/java/io/github/goldfish07/reschiper/plugin/bundle/ResourceTableBuilder.java:34-133 | the entries of packages with fresh names, each changed, append those packages, changed, in order |
| ResourceTableBuilder.AddAllTypes | src/main/java/io/github/goldfish07/reschiper/plugin/bundle/ResourceTableBuilder.java:95-133 | the entries of types with fresh ids, each changed, append those types, changed, to the package, in order |
| DuplicateResourceMerger.SeenMeans | src/main/java/io/github/goldfish07/reschiper/plugin/command/extensions/DuplicateResourceMerger.java:111-123 | a digest is recorded exactly when some resource file has it |
| DuplicateResourceMerger.SurvivorsIn | src/main/java/io/github/goldfish07/reschiper/plugin/command/extensions/DuplicateResourceMerger.java:110-123 | every surviving entry is an entry of the module |
| DuplicateResourceMerger.SurvivorsContain | src/main/java/io/github/goldfish07/reschiper/plugin/command/extensions/DuplicateResourceMerger.java:110-123 | every entry that is outside "res", or first of its digest, is among the survivors |
| DuplicateResourceMerger.SurvivorsKeepOthers | src/main/java/io/github/goldfish07/reschiper/plugin/command/extensions/DuplicateResourceMerger.java:112-115 | the entries outside "res" all survive, in their order |
| DuplicateResourceMerger.SurvivorsDistinct | src/main/java/io/github/goldfish07/reschiper/plugin/command/extensions/DuplicateResourceMerger.java:117-122 | no two surviving resource files share a digest |
| DuplicateResourceMerger.SurvivorsCover | src/main/java/io/github/goldfish07/reschiper/plugin/command/extensions/DuplicateResourceMerger.java:117-122 | every resource file has a surviving resource file with the same digest |
| DuplicateResourceMerger.SurvivorsAll | src/main/java/io/github/goldfish07/reschiper/plugin/command/extensions/DuplicateResourceMerger.java:110-123 | when no two resource files share a digest, every entry survives |
| DuplicateResourceMerger.PrefixSurvives | src/main/java/io/github/goldfish07/reschiper/plugin/command/extensions/DuplicateResourceMerger.java:111-123 | whether an entry survives depends only on the entries before it |
| DuplicateResourceMerger.ScanStep | src/main/java/io/github/goldfish07/reschiper/plugin/command/extensions/DuplicateResourceMerger.java:112-122 | one step keeps at most one more entry |
| DuplicateResourceMerger.ScanEntries | src/main/java/io/github/goldfish07/reschiper/plugin/command/extensions/DuplicateResourceMerger.java:108-123 | the scan keeps at most as many entries as there are |
| DuplicateResourceMerger.ScanFirsts | src/main/java/io/github/goldfish07/reschiper/plugin/command/extensions/DuplicateResourceMerger.java:108-123 | after the scan, the recorded digests are exactly the digests seen, each dropped path's digest has a recorded path, and each recorded path belongs to a kept resource file with that digest |
| DuplicateResourceMerger.ScanKept | src/main/java/io/github/goldfish07/reschiper/plugin/command/extensions/DuplicateResourceMerger.java:108-123 | the scan keeps exactly the survivors, in order |
| DuplicateResourceMerger.ScanFrom | src/main/java/io/github/goldfish07/reschiper/plugin/command/extensions/DuplicateResourceMerger.java:108-123 | dropped paths are paths of the module's entries and kept entries are entries of the module |
| DuplicateResourceMerger.ScanDisjoint | src/main/java/io/github/goldfish07/reschiper/plugin/command/extensions/DuplicateResourceMerger.java:108-123 | when paths are unique, every entry is either kept or dropped, and no kept entry has a dropped path |
| DuplicateResourceMerger.ScanDropped | src/main/java/io/github/goldfish07/reschiper/plugin/command/extensions/DuplicateResourceMerger.java:117-118 | when paths are unique, every entry that does not survive has its path dropped, recorded with its own digest |
| DuplicateResourceMerger.Target | src/main/java/io/github/goldfish07/reschiper/plugin/command/extensions/DuplicateResourceMerger.java:162-164 | a path that was not dropped is left as it is; a dropped path goes to a recorded first path |
| DuplicateResourceMerger.MergeConfig | src/main/java/io/github/goldfish07/reschiper/plugin/command/extensions/DuplicateResourceMerger.java:159-165 | the configuration is kept; a value that is not a file is unchanged; a file reference is read as a path, sent to its target and written back |
| DuplicateResourceMerger.MergeConfigs | src/main/java/io/github/goldfish07/reschiper/plugin/command/extensions/DuplicateResourceMerger.java:156-167 | one merged value per value, in order |
| DuplicateResourceMerger.MergeEntry | src/main/java/io/github/goldfish07/reschiper/plugin/command/extensions/DuplicateResourceMerger.java:141-145 | the entry keeps its package, type, id and name, and its values are merged |
| DuplicateResourceMerger.MergeTable | src/main/java/io/github/goldfish07/reschiper/plugin/command/extensions/DuplicateResourceMerger.java:138-148 | the rebuilt table has as many entries as the original |
| DuplicateResourceMerger.MergeTableWellFormed | src/main/java/io/github/goldfish07/reschiper/plugin/command/extensions/DuplicateResourceMerger.java:138-148 | on a table the builder can reproduce (well formed, no package without types), every package, type and entry keeps its place, and each entry keeps its id and name and has its config values merged |
| DuplicateResourceMerger.MergeModule | src/main/java/io/github/goldfish07/reschiper/plugin/command/extensions/DuplicateResourceMerger.java:98-130 | a module with no package in its table, or with no entries, comes back unchanged with a count of zero; otherwise it keeps its name and native libraries, its table keeps the number of entries, and it has no more entries than before |
| DuplicateResourceMerger.MergeModuleEntries | src/main/java/io/github/goldfish07/reschiper/plugin/command/extensions/DuplicateResourceMerger.java:108-128 | the merged module keeps exactly the survivors; when paths are unique, the count is the number of entries dropped |
| DuplicateResourceMerger.MergeModuleCount | src/main/java/io/github/goldfish07/reschiper/plugin/command/extensions/DuplicateResourceMerger.java:108-128 | when the module's entry paths are unique, its dropped count plus its remaining entries is the number of entries it had |
| DuplicateResourceMerger.MergeModuleNoDuplicates | src/main/java/io/github/goldfish07/reschiper/plugin/command/extensions/DuplicateResourceMerger.java:108-128 | a module without duplicated digests keeps all its entries and reports none dropped |
| DuplicateResourceMerger.TargetKept | src/main/java/io/github/goldfish07/reschiper/plugin/command/extensions/DuplicateResourceMerger.java:162-164 | when paths are unique and valid, the target of a valid path is valid and is never a dropped path |
| DuplicateResourceMerger.MergeModuleRedirects | src/main/java/io/github/goldfish07/reschiper/plugin/command/extensions/DuplicateResourceMerger.java:125-128 | after merging, no file reference in the table names the path of a dropped entry |
| DuplicateResourceMerger.MergeModuleTargets | src/main/java/io/github/goldfish07/reschiper/plugin/command/extensions/DuplicateResourceMerger.java:117-164 | when paths are unique, each dropped entry's path is redirected to a surviving resource file with the same digest |
| DuplicateResourceMerger.MergeModules | src/main/java/io/github/goldfish07/reschiper/plugin/command/extensions/DuplicateResourceMerger.java:69-71 | every module is merged on its own, in order |
| DuplicateResourceMerger.Merge | src/main/java/io/github/goldfish07/reschiper/plugin/command/extensions/DuplicateResourceMerger.java:67-88 | the metadata and the number of modules are kept; each module keeps its name and loses entries only |
| DuplicateResourceMerger.MergeModulesTotal | src/main/java/io/github/goldfish07/reschiper/plugin/command/extensions/DuplicateResourceMerger.java:209-210 | when every module's entry paths are unique, the reported count plus the entries left in the merged modules is the number of entries the modules had |
| BundleStringFilter.KeepLanguage | src/main/java/io/github/goldfish07/reschiper/plugin/command/extensions/BundleStringFilter.java:187-199 | the default locale (empty or a single space) is always kept; a locale without a dash is kept exactly when it is whitelisted; a locale with a dash is kept exactly when the language before its first dash is whitelisted |
| BundleStringFilter.KeptConfigsMeans | src/main/java/io/github/goldfish07/reschiper/plugin/command/extensions/BundleStringFilter.java:128-141 | a config value survives the locale pruning exactly when it was in the entry and either the whitelist is empty or its locale is kept |
| BundleStringFilter.KeptConfigsAll | src/main/java/io/github/goldfish07/reschiper/plugin/command/extensions/BundleStringFilter.java:131-140 | a whitelist that keeps every locale of an entry leaves its config values as they are |
| BundleStringFilter.RemoveValues | src/main/java/io/github/goldfish07/reschiper/plugin/command/extensions/BundleStringFilter.java:145-159 | every value is replaced by the "[value removed]" string, with its configuration and its position kept |
| BundleStringFilter.FilterEntry | src/main/java/io/github/goldfish07/reschiper/plugin/command/extensions/BundleStringFilter.java:128-162 | an entry keeps its id and name; entries outside the "string" type of package 127 pass unchanged; a targeted entry has its locales pruned, and all its remaining values blanked when its name is unused; with no whitelist and a used name, nothing changes |
| BundleStringFilter.FilterType | src/main/java/io/github/goldfish07/reschiper/plugin/command/extensions/BundleStringFilter.java:121-164 | every entry of the type is filtered, in order, and the type keeps its id and name |
| BundleStringFilter.FilterPackage | src/main/java/io/github/goldfish07/reschiper/plugin/command/extensions/BundleStringFilter.java:114-165 | every type of the package is filtered, in order, and the package keeps its id and name |
| ResourceTableBuilder.ReplayEntries | src/main/java/io/github/goldfish07/reschiper/plugin/command/extensions/BundleStringFilter.java:163 | handing a type's entries to the builder adds exactly that many entries |
| BundleStringFilter.ReplayPackages | src/main/java/io/github/goldfish07/reschiper/plugin/command/extensions/BundleStringFilter.java:114-177 | handing packages to the builder adds exactly the entries they hold |
| BundleStringFilter.Replay | src/main/java/io/github/goldfish07/reschiper/plugin/command/extensions/BundleStringFilter.java:110-178 | the rebuilt table has exactly as many entries as the original |
| ResourceTableBuilder.ReplayEntriesAppend | src/main/java/io/github/goldfish07/reschiper/plugin/command/extensions/BundleStringFilter.java:163 | entries handed to an existing type are appended to it, and nothing else changes |
| ResourceTableBuilder.ReplayTypesAppend | src/main/java/io/github/goldfish07/reschiper/plugin/command/extensions/BundleStringFilter.java:121-164 | well-formed types with new ids are appended to the package, in order |
| BundleStringFilter.ReplayPackagesAppend | src/main/java/io/github/goldfish07/reschiper/plugin/command/extensions/BundleStringFilter.java:114-177 | well-formed packages with new names are appended to the builder, in order |
| BundleStringFilter.ReplayWellFormed | src/main/java/io/github/goldfish07/reschiper/plugin/command/extensions/BundleStringFilter.java:110-178 | the builder gives back a well-formed table exactly as it was |
| BundleStringFilter.FilterTable | src/main/java/io/github/goldfish07/reschiper/plugin/command/extensions/BundleStringFilter.java:105-179 | the filtered table has exactly as many entries as the original |
| BundleStringFilter.FilterTableWellFormed | src/main/java/io/github/goldfish07/reschiper/plugin/command/extensions/BundleStringFilter.java:105-179 | on a well-formed table the filter keeps the packages in order and replaces each by its filtered self |
| BundleStringFilter.FilterTypesWellFormed | src/main/java/io/github/goldfish07/reschiper/plugin/command/extensions/BundleStringFilter.java:121-164 | filtering a package keeps its types well formed |
| BundleStringFilter.FilterModule | src/main/java/io/github/goldfish07/reschiper/plugin/command/extensions/BundleStringFilter.java:90-97 | a module without a table comes back as it was; otherwise only its table changes, and the table keeps its number of entries |
| BundleStringFilter.FilterBundle | src/main/java/io/github/goldfish07/reschiper/plugin/command/extensions/BundleStringFilter.java:58-82 | the bundle comes back unchanged when there are neither unused names nor whitelisted languages; otherwise every module is filtered; metadata, module names, entries and native libraries are kept |
| BundleFileFilter.FilterRules | src/main/java/io/github/goldfish07/reschiper/plugin/command/extensions/BundleFileFilter.java:55-64 | the rule set holds the configured rules (none when absent) and the three signature rules, and nothing else |
| BundleFileFilter.SignatureRuleSupported | src/main/java/io/github/goldfish07/reschiper/plugin/command/extensions/BundleFileFilter.java:33-39 | each signature rule is "META-INF/", a star and its extension, and lies in the glob fragment the model compiles |
| BundleFileFilter.SignatureRuleMatches | src/main/java/io/github/goldfish07/reschiper/plugin/command/extensions/BundleFileFilter.java:33-39 | a signature rule matches exactly the paths that start with "META-INF/", end with its extension and hold no line terminator in between |
| BundleFileFilter.SupportedAppend | src/main/java/io/github/goldfish07/reschiper/plugin/command/extensions/BundleFileFilter.java:212-220 | a concatenation of rules lies in the compiled fragment exactly when both parts do |
| BundleFileFilter.MatchedRule | src/main/java/io/github/goldfish07/reschiper/plugin/command/extensions/BundleFileFilter.java:212-220 | no rule is returned exactly when no rule matches the whole path; a returned rule is one of the rules |
| BundleFileFilter.SplitEntries | src/main/java/io/github/goldfish07/reschiper/plugin/command/extensions/BundleFileFilter.java:104-119 | fails with UnsupportedOperationException exactly when some matched entry may not be removed; otherwise the kept entries are the unmatched ones and the removed entries the matched ones, both in order |
| BundleFileFilter.SplitCount | src/main/java/io/github/goldfish07/reschiper/plugin/command/extensions/BundleFileFilter.java:107-121 | kept and removed entries together number all the entries |
| BundleFileFilter.UpdateLibDirectory | src/main/java/io/github/goldfish07/reschiper/plugin/command/extensions/BundleFileFilter.java:138-166 | without a removed "lib/" entry the native configuration is returned as it was; with one, a module without native configuration is an error; a configuration stays present |
| BundleFileFilter.UpdateLibDirectoryKeeps | src/main/java/io/github/goldfish07/reschiper/plugin/command/extensions/BundleFileFilter.java:138-166 | with distinct directory paths, the configuration after removing "lib/" entries holds exactly the directories that were not emptied, in order |
| BundleFileFilter.PruneKeeps | src/main/java/io/github/goldfish07/reschiper/plugin/command/extensions/BundleFileFilter.java:152-164 | with distinct paths, the directory loop keeps exactly the directories the test accepts, in order |
| BundleFileFilter.RemoveAtBoundary | src/main/java/io/github/goldfish07/reschiper/plugin/command/extensions/BundleFileFilter.java:161 | with distinct paths, removing the path of the next directory in the loop removes that very directory |
| BundleFileFilter.EmptiedMeans | src/main/java/io/github/goldfish07/reschiper/plugin/command/extensions/BundleFileFilter.java:152-163 | a directory counts as emptied exactly when some module entry lies under it and every entry under it is a removed "lib/" entry |
| BundleFileFilter.FilterModule | src/main/java/io/github/goldfish07/reschiper/plugin/command/extensions/BundleFileFilter.java:104-128 | the module keeps its name and table; its entries are exactly the unmatched ones, in order; removed and kept entries number all the entries |
| BundleFileFilter.FilterModuleFails | src/main/java/io/github/goldfish07/reschiper/plugin/command/extensions/BundleFileFilter.java:104-149 | the module filter fails exactly when a matched entry may not be removed, or when entries under "lib" are removed from a module without native libraries |
| BundleFileFilter.FilterModuleDirectories | src/main/java/io/github/goldfish07/reschiper/plugin/command/extensions/BundleFileFilter.java:123-126 | with distinct directory paths, a configured directory survives exactly when it is not the case that some entry lies under it and all entries under it are removed "lib/" entries |
| BundleFileFilter.FilterModuleIdempotent | src/main/java/io/github/goldfish07/reschiper/plugin/command/extensions/BundleFileFilter.java:104-128 | filtering a filtered module again removes nothing and changes nothing |
| BundleFileFilter.FilterModules | src/main/java/io/github/goldfish07/reschiper/plugin/command/extensions/BundleFileFilter.java:79-81 | one result per module, and removed plus remaining entries number the entries before |
| BundleFileFilter.FilterModulesFails | src/main/java/io/github/goldfish07/reschiper/plugin/command/extensions/BundleFileFilter.java:79-81 | the pass fails exactly when some module fails |
| BundleFileFilter.FilterModulesEach | src/main/java/io/github/goldfish07/reschiper/plugin/command/extensions/BundleFileFilter.java:79-81 | when the pass succeeds, each module of the result is that module filtered |
| BundleFileFilter.FilterModulesIdempotent | src/main/java/io/github/goldfish07/reschiper/plugin/command/extensions/BundleFileFilter.java:79-81 | filtering filtered modules again removes nothing and changes nothing |
| BundleFileFilter.FilterMetadata | src/main/java/io/github/goldfish07/reschiper/plugin/command/extensions/BundleFileFilter.java:173-191 | the metadata files no rule matches under "BUNDLE-METADATA/", in order; kept and dropped files number all the files |
| BundleFileFilter.FilterMetadataIdempotent | src/main/java/io/github/goldfish07/reschiper/plugin/command/extensions/BundleFileFilter.java:173-191 | filtering the kept metadata again drops nothing |
| BundleFileFilter.FilterBundle | src/main/java/io/github/goldfish07/reschiper/plugin/command/extensions/BundleFileFilter.java:72-95 | fails exactly when some module fails; otherwise the modules are kept one for one, the metadata is filtered, and removed plus remaining files number the files before |
| BundleFileFilter.FilterBundleIdempotent | src/main/java/io/github/goldfish07/reschiper/plugin/command/extensions/BundleFileFilter.java:72-95 | filtering a filtered bundle again removes nothing and changes nothing |
| ResourcesObfuscator.Exempt | src/main/java/io/github/goldfish07/reschiper/plugin/obfuscation/ResourcesObfuscator.java:370-382 | a name is left alone exactly when it starts with "android:" or some whitelist glob matches all of it |
| ResourcesObfuscator.ResetPoolFull | src/main/java/io/github/goldfish07/reschiper/plugin/obfuscation/ResourcesObfuscator.java:156-157 | the pool after a reset without a blacklist has no duplicates, holds 36578 names, and holds only well-formed names that are not reserved file names |
| ResourcesObfuscator.Mint | src/main/java/io/github/goldfish07/reschiper/plugin/obfuscation/ResourcesObfuscator.java:167-168 | the name handed out is well formed and not a reserved file name; while fewer names are in use than the pool holds, it is not one of them |
| ResourcesObfuscator.MintIsReplaceString | src/main/java/io/github/goldfish07/reschiper/plugin/obfuscation/ResourcesObfuscator.java:167-168 | handing a name out of the full pool is what asking for a replacement right after a reset does |
| ResourcesObfuscator.MintFresh | src/main/java/io/github/goldfish07/reschiper/plugin/obfuscation/ResourcesObfuscator.java:198-199 | a full pool without duplicates hands out a name already in use only when at least as many names as it holds are in use |
| ResourcesObfuscator.SeedWith | src/main/java/io/github/goldfish07/reschiper/plugin/obfuscation/ResourcesObfuscator.java:126-142 | the fold fails exactly when some value is rejected, and then with the error of the first such value; otherwise a name is in use under a key exactly when it already was or some value yields it there |
| ResourcesObfuscator.FileSeed | src/main/java/io/github/goldfish07/reschiper/plugin/obfuscation/ResourcesObfuscator.java:127-128 | a prior entry-file path yields its parent directory and the prefix of its file name, and fails exactly when either cannot be read |
| ResourcesObfuscator.ResourceSeed | src/main/java/io/github/goldfish07/reschiper/plugin/obfuscation/ResourcesObfuscator.java:136-137 | a prior resource name yields its type and its entry name, and fails exactly when the name cannot be split |
| ResourcesObfuscator.ValuesAlongAll | src/main/java/io/github/goldfish07/reschiper/plugin/obfuscation/ResourcesObfuscator.java:126 | the values met along an enumeration of the keys are exactly the map's values |
| ResourcesObfuscator.SeedInUse | src/main/java/io/github/goldfish07/reschiper/plugin/obfuscation/ResourcesObfuscator.java:123-144 | seeding fails exactly when some prior entry-file or resource value cannot be read; otherwise a name is in use under a key exactly when some prior value yields it there |
| ResourcesObfuscator.CheckResMappingRules | src/main/java/io/github/goldfish07/reschiper/plugin/obfuscation/ResourcesObfuscator.java:353-362 | succeeds exactly when every obfuscated directory lies under "res", and fails with IllegalArgumentException otherwise |
| ResourcesObfuscator.MintedDirUnderRes | src/main/java/io/github/goldfish07/reschiper/plugin/obfuscation/ResourcesObfuscator.java:169 | a directory "res/" plus a plain name lies under "res" |
| ResourcesObfuscator.DirStep | src/main/java/io/github/goldfish07/reschiper/plugin/obfuscation/ResourcesObfuscator.java:161-170 | the only failure is reading the names in use, and it cannot happen when they can be listed; existing directory mappings are untouched; the reference's parent gets a mapping; the only new mapping is that parent's, "res/" plus a name not in use |
| ResourcesObfuscator.DirPass | src/main/java/io/github/goldfish07/reschiper/plugin/obfuscation/ResourcesObfuscator.java:161-170 | afterwards every referenced parent directory has a mapping, existing mappings are untouched, every new value is "res/" plus a well-formed name, and nothing else in the mapping changes |
| ResourcesObfuscator.NameListSize | src/main/java/io/github/goldfish07/reschiper/plugin/obfuscation/ResourcesObfuscator.java:168 | no more directory names are in use than there are directory mappings |
| ResourcesObfuscator.DirStepFresh | src/main/java/io/github/goldfish07/reschiper/plugin/obfuscation/ResourcesObfuscator.java:166-169 | while the pool is not used up, a step succeeds, gives its new directory a last piece no other directory has, and adds at most one mapping |
| ResourcesObfuscator.DirPassFresh | src/main/java/io/github/goldfish07/reschiper/plugin/obfuscation/ResourcesObfuscator.java:161-170 | while mapped directories plus pending references number fewer than the pool, the pass succeeds and never hands out a directory name twice |
| ResourcesObfuscator.DirPassMintsDistinct | src/main/java/io/github/goldfish07/reschiper/plugin/obfuscation/ResourcesObfuscator.java:161-170 | starting from a mapping whose names can be listed, the pass mints only distinct directory names |
| ResourcesObfuscator.DirPassKeepsRules | src/main/java/io/github/goldfish07/reschiper/plugin/obfuscation/ResourcesObfuscator.java:161-170 | a pass that starts with every directory under "res" keeps every directory under "res" |
| ResourcesObfuscator.EntryChoice | src/main/java/io/github/goldfish07/reschiper/plugin/obfuscation/ResourcesObfuscator.java:185-203 | the step changes only the resource map, and the names in use only grow |
| ResourcesObfuscator.EntryStep | src/main/java/io/github/goldfish07/reschiper/plugin/obfuscation/ResourcesObfuscator.java:173-205 | the step changes only the resource map, the names in use only grow, and only the entry's own type changes |
| ResourcesObfuscator.EntryStepMaps | src/main/java/io/github/goldfish07/reschiper/plugin/obfuscation/ResourcesObfuscator.java:186-203 | after a step the entry is mapped exactly when it is not whitelisted, and every other resource keeps its mapping |
| ResourcesObfuscator.EntryStepReuses | src/main/java/io/github/goldfish07/reschiper/plugin/obfuscation/ResourcesObfuscator.java:190-193 | a mapped entry that is not whitelisted keeps its name, and its entry part is then in use in its type |
| ResourcesObfuscator.EntryStepMints | src/main/java/io/github/goldfish07/reschiper/plugin/obfuscation/ResourcesObfuscator.java:197-201 | an unmapped entry that is not whitelisted gets "package.R.type.n" for the first free name n of its type, and n is then in use |
| ResourcesObfuscator.EntryStepFails | src/main/java/io/github/goldfish07/reschiper/plugin/obfuscation/ResourcesObfuscator.java:186-203 | a step fails exactly when the entry is not whitelisted and either its recorded name has no entry part or the name it would get already belongs to some resource |
| ResourcesObfuscator.EntryStepInjective | src/main/java/io/github/goldfish07/reschiper/plugin/obfuscation/ResourcesObfuscator.java:186-203 | no step gives two resources the same obfuscated name |
| ResourcesObfuscator.EntryPass | src/main/java/io/github/goldfish07/reschiper/plugin/obfuscation/ResourcesObfuscator.java:173-205 | the pass changes only the resource map, and the names in use only grow |
| ResourcesObfuscator.EntryPassOthers | src/main/java/io/github/goldfish07/reschiper/plugin/obfuscation/ResourcesObfuscator.java:173-205 | a resource that no entry names keeps its place, mapped or not, and its obfuscated name |
| ResourcesObfuscator.EntryPassCovers | src/main/java/io/github/goldfish07/reschiper/plugin/obfuscation/ResourcesObfuscator.java:173-205 | after the pass every entry is mapped exactly when it is not whitelisted |
| ResourcesObfuscator.EntryPassKeeps | src/main/java/io/github/goldfish07/reschiper/plugin/obfuscation/ResourcesObfuscator.java:186-193 | a resource mapped before and after the pass keeps its obfuscated name |
| ResourcesObfuscator.EntryPassDrops | src/main/java/io/github/goldfish07/reschiper/plugin/obfuscation/ResourcesObfuscator.java:194-196 | a whitelisted resource unmapped before the pass stays unmapped |
| ResourcesObfuscator.EntryPassOthersIn | src/main/java/io/github/goldfish07/reschiper/plugin/obfuscation/ResourcesObfuscator.java:194-202 | a resource that gains a mapping in the pass is named by some entry |
| ResourcesObfuscator.EntryPassInjective | src/main/java/io/github/goldfish07/reschiper/plugin/obfuscation/ResourcesObfuscator.java:173-205 | the pass never gives two resources the same obfuscated name |
| ResourcesObfuscator.FileChoice | src/main/java/io/github/goldfish07/reschiper/plugin/obfuscation/ResourcesObfuscator.java:233-246 | when the file gets a path, only the entry-file map changes, the names in use only grow, and the file's raw path is recorded with the new path |
| ResourcesObfuscator.FileStep | src/main/java/io/github/goldfish07/reschiper/plugin/obfuscation/ResourcesObfuscator.java:219-253 | the step changes only the entry-file map, and the names in use only grow |
| ResourcesObfuscator.FileStepFails | src/main/java/io/github/goldfish07/reschiper/plugin/obfuscation/ResourcesObfuscator.java:222-251 | a file without a mapped directory is a runtime failure; a recorded file fails exactly when its path is already given to another file; an unrecorded whitelisted file is skipped; a new file fails exactly when its suffix cannot be read or its minted path is taken |
| ResourcesObfuscator.FileStepShape | src/main/java/io/github/goldfish07/reschiper/plugin/obfuscation/ResourcesObfuscator.java:223-244 | a step that records a new file has found the file's directory mapping and suffix |
| ResourcesObfuscator.FileStepNew | src/main/java/io/github/goldfish07/reschiper/plugin/obfuscation/ResourcesObfuscator.java:239-252 | a new file gets its directory's obfuscated name, a slash, the first free name and its suffix; the ledger, the names in use and the module's renaming record it |
| ResourcesObfuscator.FileStepMints | src/main/java/io/github/goldfish07/reschiper/plugin/obfuscation/ResourcesObfuscator.java:240-251 | a new file's minted path is what the module's renaming and the ledger both record |
| ResourcesObfuscator.FileStepMintsInUse | src/main/java/io/github/goldfish07/reschiper/plugin/obfuscation/ResourcesObfuscator.java:241-242 | the name minted for a new file is then in use in its obfuscated directory |
| ResourcesObfuscator.FileStepFrame | src/main/java/io/github/goldfish07/reschiper/plugin/obfuscation/ResourcesObfuscator.java:219-253 | recorded files keep their paths; the only file newly recorded is this one, and only when it is not whitelisted |
| ResourcesObfuscator.FileStepAgrees | src/main/java/io/github/goldfish07/reschiper/plugin/obfuscation/ResourcesObfuscator.java:234-251 | the module's renaming agrees with the ledger before and after, and earlier renamings are kept |
| ResourcesObfuscator.FileStepInjective | src/main/java/io/github/goldfish07/reschiper/plugin/obfuscation/ResourcesObfuscator.java:247-251 | no two files of a module get the same new path |
| ResourcesObfuscator.FileStepCovers | src/main/java/io/github/goldfish07/reschiper/plugin/obfuscation/ResourcesObfuscator.java:234-251 | a file is renamed exactly when it was recorded before or is not whitelisted |
| ResourcesObfuscator.FilePass | src/main/java/io/github/goldfish07/reschiper/plugin/obfuscation/ResourcesObfuscator.java:215-255 | the pass changes only the entry-file map, and the names in use only grow |
| ResourcesObfuscator.FilePassFrame | src/main/java/io/github/goldfish07/reschiper/plugin/obfuscation/ResourcesObfuscator.java:219-253 | recorded files keep their paths; files newly recorded or renamed are resource files of the module, and newly recorded ones are not whitelisted |
| ResourcesObfuscator.FilePassAgrees | src/main/java/io/github/goldfish07/reschiper/plugin/obfuscation/ResourcesObfuscator.java:219-253 | the module's renaming agrees with the ledger, and earlier renamings are kept |
| ResourcesObfuscator.FilePassInjective | src/main/java/io/github/goldfish07/reschiper/plugin/obfuscation/ResourcesObfuscator.java:247-251 | the pass never gives two files of a module the same new path |
| ResourcesObfuscator.FilePassCovers | src/main/java/io/github/goldfish07/reschiper/plugin/obfuscation/ResourcesObfuscator.java:219-253 | every resource file is renamed exactly when it was recorded before or is not whitelisted |
| ResourcesObfuscator.RewriteEntries | src/main/java/io/github/goldfish07/reschiper/plugin/obfuscation/ResourcesObfuscator.java:269-281 | one entry per entry with the same content; an entry without a new path is kept, and one with a new path is moved there |
| ResourcesObfuscator.RawPathInjective | src/main/java/io/github/goldfish07/reschiper/plugin/obfuscation/ResourcesObfuscator.java:233 | distinct valid paths give distinct "module/path" keys |
| ResourcesObfuscator.RewriteKeepsOthers | src/main/java/io/github/goldfish07/reschiper/plugin/obfuscation/ResourcesObfuscator.java:270-280 | entries outside "res" are never moved |
| ResourcesObfuscator.RewriteConfigs | src/main/java/io/github/goldfish07/reschiper/plugin/obfuscation/ResourcesObfuscator.java:319-336 | every value keeps its configuration; a value that is not a moved file is unchanged; a moved file points to its new path and its key records the entry's id; the ledger changes only in the path maps, and the entry-file map does not change when the renaming agrees with it |
| ResourcesObfuscator.RewriteEntry | src/main/java/io/github/goldfish07/reschiper/plugin/obfuscation/ResourcesObfuscator.java:305-341 | the entry keeps its package, type, id and number of values, has no value twice, and its name's id is recorded; the ledger changes only in its id and path maps |
| ResourcesObfuscator.RewriteEntryContent | src/main/java/io/github/goldfish07/reschiper/plugin/obfuscation/ResourcesObfuscator.java:311-336 | a mapped entry takes the entry part of its obfuscated name and an unmapped one keeps its name; each value is kept, or moved to its file's new path |
| ResourcesObfuscator.RewriteEntryFails | src/main/java/io/github/goldfish07/reschiper/plugin/obfuscation/ResourcesObfuscator.java:311-343 | the rewrite fails exactly when the recorded name has no entry part, or the rewritten values hold a duplicate |
| ResourcesObfuscator.RewriteTableEntries | src/main/java/io/github/goldfish07/reschiper/plugin/obfuscation/ResourcesObfuscator.java:305-345 | one rewritten entry per entry, and the ledger changes only in its id and path maps |
| ResourcesObfuscator.RewriteTableEntriesShape | src/main/java/io/github/goldfish07/reschiper/plugin/obfuscation/ResourcesObfuscator.java:305-345 | each rewritten entry keeps its package, type, id and number of values, and has no value twice |
| ResourcesObfuscator.RewriteTableEntriesLedger | src/main/java/io/github/goldfish07/reschiper/plugin/obfuscation/ResourcesObfuscator.java:305-345 | every entry's name gets an id; ids already recorded stay; the entry-file map does not change when the renaming agrees with it |
| ResourcesObfuscator.RewriteTable | src/main/java/io/github/goldfish07/reschiper/plugin/obfuscation/ResourcesObfuscator.java:298-348 | the rebuilt table has as many entries as the original, and the ledger changes only in its id and path maps |
| ResourcesObfuscator.MappingRule | src/main/java/io/github/goldfish07/reschiper/plugin/obfuscation/ResourcesObfuscator.java:152-206 | a module without a table changes nothing; otherwise the entry-file and id maps are untouched and existing directory mappings stay |
| ResourcesObfuscator.ModulePasses | src/main/java/io/github/goldfish07/reschiper/plugin/obfuscation/ResourcesObfuscator.java:152-255 | the module's renaming agrees with the ledger, gives no two files the same path, and renames only resource files of the module |
| ResourcesObfuscator.ObfuscateModule | src/main/java/io/github/goldfish07/reschiper/plugin/obfuscation/ResourcesObfuscator.java:100-104 | the module keeps its name, native configuration, number of entries, contents and presence of a table, and its table keeps its number of entries |
| ResourcesObfuscator.ObfuscateModuleParts | src/main/java/io/github/goldfish07/reschiper/plugin/obfuscation/ResourcesObfuscator.java:100-104 | the module's entries are rewritten with the renaming its passes computed, and the ledger's directory, resource and entry-file maps are those of the passes |
| ResourcesObfuscator.ObfuscateModuleKeepsOthers | src/main/java/io/github/goldfish07/reschiper/plugin/obfuscation/ResourcesObfuscator.java:265-281 | entries outside "res" are left exactly as they were |
| ResourcesObfuscator.ObfuscateModuleMoves | src/main/java/io/github/goldfish07/reschiper/plugin/obfuscation/ResourcesObfuscator.java:233-281 | every resource file that was recorded before or is not whitelisted is moved to the path the ledger records for it |
| ResourcesObfuscator.ObfuscateModuleSkips | src/main/java/io/github/goldfish07/reschiper/plugin/obfuscation/ResourcesObfuscator.java:236-238 | an unrecorded whitelisted resource file is left exactly as it was |
| ResourcesObfuscator.ObfuscateModuleKeepsLedger | src/main/java/io/github/goldfish07/reschiper/plugin/obfuscation/ResourcesObfuscator.java:152-255 | existing directory and entry-file mappings stay as they were |
| ResourcesObfuscator.ObfuscateModuleResources | src/main/java/io/github/goldfish07/reschiper/plugin/obfuscation/ResourcesObfuscator.java:173-205 | a resource mapped before and after keeps its name, and no two resources share a name |
| ResourcesObfuscator.ObfuscateModulesStep | src/main/java/io/github/goldfish07/reschiper/plugin/obfuscation/ResourcesObfuscator.java:96-106 | the modules are processed in order, each starting from the mapping and names the previous one left |
| ResourcesObfuscator.ObfuscateModules | src/main/java/io/github/goldfish07/reschiper/plugin/obfuscation/ResourcesObfuscator.java:96-106 | one obfuscated module per module, each keeping the name, the native libraries, the number of entries and the presence of a table of the module it came from |
| ResourcesObfuscator.ObfuscateModulesExtends | src/main/java/io/github/goldfish07/reschiper/plugin/obfuscation/ResourcesObfuscator.java:96-106 | directory and entry-file mappings are only ever added to |
| ResourcesObfuscator.ObfuscateModulesResources | src/main/java/io/github/goldfish07/reschiper/plugin/obfuscation/ResourcesObfuscator.java:96-106 | no two resources end up with the same obfuscated name |
| ResourcesObfuscator.ObfuscateBundle | src/main/java/io/github/goldfish07/reschiper/plugin/obfuscation/ResourcesObfuscator.java:92-112 | the metadata is kept, the modules correspond one for one, existing directory and entry-file mappings are kept, and resource names stay distinct |
| ResourcesObfuscator.Obfuscate | src/main/java/io/github/goldfish07/reschiper/plugin/obfuscation/ResourcesObfuscator.java:82-114 | a ledger with a directory outside "res" fails with IllegalArgumentException; a successful run keeps the metadata, gives one module per module with its name, native libraries, entry count and table presence, only adds directory and entry-file mappings, and keeps resource names distinct |
| ResourcesObfuscator.ObfuscateRejects | src/main/java/io/github/goldfish07/reschiper/plugin/obfuscation/ResourcesObfuscator.java:91 | a mapping with a directory outside "res" is rejected with IllegalArgumentException |
| ResourcesObfuscator.ObfuscateLedger | src/main/java/io/github/goldfish07/reschiper/plugin/obfuscation/ResourcesObfuscator.java:82-114 | a successful run only adds directory and entry-file mappings and keeps resource names distinct |

## Left out

- File and archive I/O is outside the model: reading and writing the bundle zip, `readByte`, `getZipEntrySize`, `deleteDir`, `uncompress`, `getFileSizes`, `copyFileUsingStream`, the duplicate log, the mapping file itself, and all console and log output. Entry contents are opaque byte sequences, and the ledger is a sequence of lines.
- The MD5 digest of an entry (`getEntryMd5`, RFC 1321) is an uninterpreted function parameter of the merger. `bytesToHexString` is modelled on its own.
- The clock (`System.currentTimeMillis`) is outside the model. `TimeClock.ElapsedTime` takes the elapsed milliseconds as a parameter.
- Java `HashMap`/`HashSet` iteration order is a sequence parameter that enumerates the collection exactly once. This covers the bundle modules the passes read, whitelist and filter rules, and the ledger's maps. No property depends on a particular order of these.
- The XML configuration parsers, the Gradle task and plugin wiring, `Command`, signing, keystores, platform detection, `FileUtils`, process spawning in `Utils` (`runCmd`, `runExec`, stream readers, `cleanDir`), and bundle analysis and packaging are not part of this model. Their results enter as parameters: rule sets, the unused-name set, and the language whitelist.
- Reading the unused-name file of the string filter is left out. The unused names are a set parameter.
- Java nulls for package, type, entry and locale strings cannot occur in the datatypes. A null pattern set, a null blacklist, a null `names` argument, a null mapping id and a missing resource table are modelled with `Option`.
- Regex semantics are modelled only for the globs the program writes: the characters other than `.`, `?`, `*` and `+` are taken to be regex-literal. The following members require rules in this fragment (`SupportedRule`, `SupportedRules`, `RulesSupported`), because `java.util.regex` as a whole is outside the model:
  - Utils.Match: requires every pattern in the supported glob fragment; the same holds for Utils.CompileRule, Utils.LiteralRule and Utils.PrefixStarSuffix.
  - StringObfuscator.Reset: requires the blacklist globs in the supported fragment; so do StringObfuscator.ResetIsFilter, StringObfuscator.ResetPoolMembers and StringObfuscator.ResetPoolOrder.
  - ResourcesObfuscator.Exempt: requires the whitelist globs in the supported fragment; so do all the entry-pass, file-pass, module and bundle members of `ResourcesObfuscator`, including ResourcesObfuscator.Obfuscate.
  - BundleFileFilter.FilterBundle: requires the enumerated rule set in the supported fragment.
- BundleFileFilter.MatchedRule: does not require the rules to lie in the supported glob fragment. A rule outside it never matches in the model. `java.util.regex` may match it: `lib/[a]bc.so` reads `[a]` as a character class and matches `lib/abc.so`. For such rules the model keeps what the program removes.
- BundleFileFilter.FilterModule: for rules outside the supported fragment it keeps entries the program removes, as under BundleFileFilter.MatchedRule.
- BundleFileFilter.FilterModules: for rules outside the supported fragment it keeps entries the program removes, as under BundleFileFilter.MatchedRule.
- BundleFileFilter.FilterMetadata: for rules outside the supported fragment it keeps metadata files the program drops, as under BundleFileFilter.MatchedRule.
- ResourcesObfuscator.DirPass: takes the name pool as a parameter satisfying `FullPool`, and so do the other pass members. The program resets its obfuscator without a blacklist before each use. `ResourcesObfuscator.ResetPoolFull` shows that this reset pool satisfies `FullPool`, and `ResourcesObfuscator.MintIsReplaceString` shows that minting is `getReplaceString` on that pool.
- ResourcesObfuscator.RewriteTableEntries: takes the resource-id text written to the ledger (`getResourceId`/`String.format`) as a function parameter `idOf`.
- ResourcesObfuscator.ObfuscateBundle: states only the following, not the full per-module outcome across modules:
  - metadata is unchanged;
  - modules keep their names and count;
  - the ledger only grows;
  - resource names stay injective.
  The per-module outcome is stated by the ObfuscateModule lemmas. ResourcesObfuscator.ObfuscateModulesResources is weaker in the same way.
- DuplicateResourceMerger.MergeModuleRedirects: assumes the module's entry paths are unique (`UniquePaths`), as zip entry names are. The other members that mention `UniquePaths` assume the same.
- BundleFileFilter.FilterModuleDirectories: assumes the native directory paths are distinct (`DistinctPaths`). `removeDirectory` alone is modelled without that assumption.
- FileOperation.NetFileSizeDescription: models the `0B` and byte branches exactly. For larger sizes it models the unit choice only; the result is a `SizeText.Scaled` value carrying the size, divisor and unit in place of the `DecimalFormat` number text, because floating-point formatting is outside the model.
- ResourceTableBuilder.Build: emits the packages in the order the builder first saw their names. The program's `build()` (ResourceTableBuilder.java:49) walks `resPackageMap`, a `HashMap` keyed by package name (ResourceTableBuilder.java:25), so with several packages its order is the map's hash order. A table the model rebuilds equals the program's only up to the order of its packages. The ensures of Build itself states only that the number of entries is kept. The grouping by package name and type id is stated by ResourceTableBuilder.RebuildCount, ResourceTableBuilder.AddPackage, ResourceTableBuilder.AddResource and ResourceTableBuilder.RebuildMapped. The duplicate package-id check never fires, because the committed table is empty until `build()`, so it is not modelled.
- ResourceTableBuilder.RebuildMapped: gives the table back with its packages in their original order; the program gives them in hash order, as under ResourceTableBuilder.Build.
- BundleStringFilter.ReplayWellFormed: gives the table back exactly, packages in their original order; the program gives it back only up to the order of its packages, as under ResourceTableBuilder.Build.
- BundleStringFilter.FilterTableWellFormed: keeps the packages in their original order; the program keeps them only up to order, as under ResourceTableBuilder.Build.
- DuplicateResourceMerger.MergeTable: its ensures states only the entry count. The entry-by-entry outcome is stated by DuplicateResourceMerger.MergeTableWellFormed, for tables the builder can reproduce (well formed, no package without types), and with packages in their original order, which the program keeps only up to order, as under ResourceTableBuilder.Build.
- BundleStringFilter.FilterBundle, BundleFileFilter.FilterBundle and ResourcesObfuscator.Obfuscate: return the modules in the input order. The program puts them in a `HashMap` and copies it with `ImmutableMap.copyOf` (BundleStringFilter.java:61,78; BundleFileFilter.java:78,84; ResourcesObfuscator.java:92,108), so its module order is the map's hash order. Each module's content is as modelled.
- ResourcesObfuscator.Obfuscate: states the rejected ledger, the kept metadata, the module correspondence (`SameModules`), ledger growth and injectivity, the same as ResourcesObfuscator.ObfuscateBundle, and not the full per-module outcome, which the ObfuscateModule lemmas state.
- ResourceMapping.MappingLines: states the layout of the sections (sizes and headers). Its content is stated by `MappingLedger.ParseWritten`, which parses the lines back into the maps.
- StringObfuscator: the replaced-id and whitelist-id sets are modelled as sets of ids. `reset` empties them.
