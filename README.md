# Downloads, ad blocking and favicons of a small web browser, in Dafny

This project models three sequential cores of a desktop web browser built on
an embedded HTML engine, and proves properties of them.

- **The download manager** (`downloads.dfy`, `materializer.dfy`,
  `snapshot.dfy`). The engine reports each download through callbacks:
  request, begin, data, finish and fail. The manager keeps
  one record per download id and one open stream per active download, and
  writes the received bytes to a file in the download directory. The file name
  comes from a pipeline: derive it from the URL or the suggested name,
  sanitise it, then make it unique in the directory. The downloads page reads
  a JSON snapshot of all records and can cancel, clear, open or reveal them.
  `DownloadManager` is a class whose fields `records`, `active`, `nextId` and
  `files` are updated in place. `files` holds the regular files on disk with
  their contents. The constant `dirs` holds the directories, among them the
  `.` and `..` entries of the download directory. A path "exists" when it is
  in either (`Downloads.ExistingPaths`).
- **The ad blocker** (`adblock.dfy`). It holds a set of blocked host
  suffixes and a list of URL substrings. It reads them from a blocklist whose
  lines may be comments, `||domain^` rules, hosts-file lines, plain domains or
  substrings. For each network request it answers allow or block.
  `AdBlocker` is a class with the two rule containers and the `enabled`
  switch.
- **The favicon lookup** (`favicon.dfy`). An http or https page URL maps to
  its origin followed by `/favicon.ico`. The answer is memoised per origin in
  the `UI` class's `faviconCache`.

`strings.dfy` holds two helpers: `std::to_string` of the snapshot's numbers,
and the C string view (text up to the first NUL). The engine's strings reach
the code through `utf8().data()`, so the download callbacks
(`src/DownloadManager.cpp:22-27`), the request decision and the favicon
lookup all see their input up to its first NUL. `wrappers.dfy` holds `Option` and a `byte` type.

Some behaviour of the code that its comments or its JSON do not suggest:

- `src/DownloadManager.cpp:234` writes `canReveal` with the same condition as
  `canOpen`: completed and a non-empty path. `RevealDownload`
  (`src/DownloadManager.cpp:286-293`) only needs a non-empty path. A
  cancelled download keeps its path, so it can be revealed although the
  snapshot says it cannot (`Downloads.RevealWiderThanSnapshot`).
- `OnRequestDownload` (`src/DownloadManager.cpp:97`) sets the status to
  Requested whatever it was, so a completed, failed or cancelled record goes
  back to Requested (`Downloads.RequestResetsTerminal`).
- The comment at `src/AdBlocker.h:21` calls `*ads.js` a URL substring rule.
  `src/AdBlocker.cpp:77-81` stores any remaining line with a `.` and no space
  as a host rule, so `*ads.js` becomes a host rule
  (`AdBlock.AdsJsIsHostRule`).
- `OnNetworkRequest` (`src/AdBlocker.cpp:98-123`) never reads `enabled`.

## Model

| member | source | states |
|---|---|---|
| Strings.NatToString | src/DownloadManager.cpp:226 | `std::to_string` of a counter is a non-empty run of digits without a leading zero |
| Strings.IntToString | src/DownloadManager.cpp:231-236 | `std::to_string` of a signed number is non-empty and starts with `-` exactly for a negative number |
| Strings.NatToStringRoundTrip | src/DownloadManager.cpp:226 | reading back the decimal text of a counter gives the counter |
| Strings.IntToStringRoundTrip | src/DownloadManager.cpp:231-236 | the signed decimal text of a byte count or time (minus sign for negatives) reads back to the same number |
| Strings.NegativeRoundTrip | src/DownloadManager.cpp:232 | a minus sign then the digits of n reads back as -n |
| Strings.NatToStringInjective | src/DownloadManager.cpp:226 | distinct ids are written as distinct texts |
| Strings.CString | src/AdBlocker.cpp:107-108 | the C string view is a prefix with no NUL, and it stops only at a NUL |
| Strings.NoNulIsCString | src/UI.cpp:451-452 | a text without NUL is seen whole |
| Materializer.FindLastPathSeparator | src/DownloadManager.cpp:45-49 | the index after the last `/` or `\` (0 when there is none): a separator precedes it and none follows |
| Materializer.StripQueryAndFragment | src/DownloadManager.cpp:51-57 | the prefix before the first `?` or `#`: it holds neither, and it is cut exactly at one (or is all of the URL) |
| Materializer.DeriveFilename | src/DownloadManager.cpp:338-348 | the derived name is never empty |
| Materializer.DeriveFilenameSuggested | src/DownloadManager.cpp:340-341 | a non-empty suggested name is returned unchanged |
| Materializer.DeriveFilenameSegment | src/DownloadManager.cpp:342-347 | without a suggestion, a non-empty last `/`/`\` segment of the URL cut at `?`/`#` is the name, and it holds no `?` or `#` |
| Materializer.DeriveFilenameEmptySegment | src/DownloadManager.cpp:345-346 | a URL whose last segment is empty gives "download" |
| Materializer.IsInvalidFilenameChar | src/DownloadManager.cpp:354-360 | the separators `/` and `\` and NUL are dropped; letters, digits, `.`, space, `-` and `_` are kept |
| Materializer.KeepValid | src/DownloadManager.cpp:355-362 | the kept characters are no more than the input and none is a control byte or one of the nine reserved characters |
| Materializer.SanitizedName | src/DownloadManager.cpp:363-365 | the sanitised name is never empty, holds no invalid byte, and is "download" exactly when nothing valid is left |
| Materializer.KeepValidAppend | src/DownloadManager.cpp:355-362 | filtering distributes over concatenation, so the kept bytes stay in input order |
| Materializer.KeepValidOfSafe | src/DownloadManager.cpp:355-362 | a name with no invalid byte is kept whole |
| Materializer.KeepValidSingle | src/DownloadManager.cpp:357-361 | one byte survives exactly when it is valid |
| Materializer.KeepValidDrops | src/DownloadManager.cpp:357-361 | an invalid byte is dropped and the bytes around it are kept in order |
| Materializer.SanitizeIdempotent | src/DownloadManager.cpp:350-366 | sanitising a sanitised name changes nothing |
| Materializer.SanitizeExample | src/DownloadManager.cpp:350-366 | "bad:name?.txt" becomes "badname.txt" |
| Materializer.SanitizeFilename | src/DownloadManager.cpp:350-366 | the filtering loop computes the sanitised name |
| Materializer.FileNameSpec | src/DownloadManager.cpp:134 | `filename()` is the longest tail of the path without `/` |
| Materializer.JoinPath | src/DownloadManager.cpp:370 | `dir / name` ends with the name, and a relative name stays under the directory |
| Materializer.FileName | src/DownloadManager.cpp:134 | `filename()` is no longer than the path and holds no `/` |
| Materializer.LastDot | src/DownloadManager.cpp:373-374 | the index of the last `.`, or none when there is no `.` |
| Materializer.ExtensionStart | src/DownloadManager.cpp:373-374 | there is an extension exactly when the name is neither "." nor ".." and has a `.` after its first character; it then starts at the last `.` |
| Materializer.Stem | src/DownloadManager.cpp:373 | `stem()` is a prefix of the name, cut just before a `.` or at the end |
| Materializer.Extension | src/DownloadManager.cpp:374 | stem then `extension()` is the name again; the extension is empty or one `.` followed by no other `.` |
| Materializer.StemExample | src/DownloadManager.cpp:373-374 | "a.txt" splits into stem "a" and extension ".txt" |
| Materializer.Candidate | src/DownloadManager.cpp:378 | the i-th alternative starts with the stem, then " (", and ends with the extension |
| Materializer.FirstFreeSpec | src/DownloadManager.cpp:376-382 | the probe finds the least free number up to 999, or reports that all are taken |
| Materializer.FirstFreeLeast | src/DownloadManager.cpp:376-382 | when i is free and every number before it is taken, the probe finds i |
| Materializer.FirstFree | src/DownloadManager.cpp:376-382 | a number found is in range and free |
| Materializer.UniquePath | src/DownloadManager.cpp:368-384 | a relative base name gives a path under the download directory |
| Materializer.UniquePathWhenFree | src/DownloadManager.cpp:370-372 | a free `dir/base` is returned as it is |
| Materializer.UniquePathWhenTaken | src/DownloadManager.cpp:373-382 | when `dir/base` exists, the result is `dir/"stem (i)ext"` for the least free i in 1..999, and it does not exist |
| Materializer.UniquePathWhenExhausted | src/DownloadManager.cpp:383 | when all 999 candidates exist, the result is `dir/base` |
| Materializer.UniquePathIsFree | src/DownloadManager.cpp:368-384 | the result exists only when `dir/base` and all 999 candidates exist |
| Materializer.FileNameAfterSlash | src/DownloadManager.cpp:134 | after a `/`, a name without `/` is the whole file name |
| Materializer.FileNameOfJoin | src/DownloadManager.cpp:134 | a name without `/` joined to the directory is the file name of the result |
| Materializer.EnsureUniquePath | src/DownloadManager.cpp:368-384 | the probing loop returns the unique path, which does not exist unless it is `dir/base` itself |
| Snapshot.NewRecord | src/DownloadManager.h:64-80 | a fresh record: Requested, -1 expected and 0 received bytes, sequence 0, empty texts, unset finish time |
| Snapshot.StatusToString | src/DownloadManager.cpp:386-402 | every status has a non-empty name other than "unknown", and the name reads back to that status |
| Snapshot.StatusRoundTrip | src/DownloadManager.cpp:386-402 | each of the five statuses has its own name, never "unknown", and reads back to itself |
| Snapshot.StatusToStringInjective | src/DownloadManager.cpp:386-402 | distinct statuses get distinct names |
| Snapshot.EscapeChar | src/DownloadManager.cpp:410-437 | `" \ \b \f \n \r \t` become a backslash and one character; every other byte is copied |
| Snapshot.Escaped | src/DownloadManager.cpp:404-439 | the escaped text is at most twice as long and holds none of `\b \f \n \r \t` raw |
| Snapshot.UnescapeStep | src/DownloadManager.cpp:410-437 | each escape is read back as its own character |
| Snapshot.EscapedRoundTrip | src/DownloadManager.cpp:404-439 | unescaping the escaped text gives the original |
| Snapshot.EscapedInjective | src/DownloadManager.cpp:404-439 | distinct strings escape to distinct texts |
| Snapshot.EscapedAppend | src/DownloadManager.cpp:408-438 | escaping proceeds character by character, in order |
| Snapshot.RenderValue | src/DownloadManager.cpp:226-237 | a written value is never empty, and only a string opens with a quote |
| Snapshot.RenderMember | src/DownloadManager.cpp:226-237 | a member is its key in quotes, then a colon, then a non-empty value |
| Snapshot.RenderMembers | src/DownloadManager.cpp:226-237 | the comma-joined members are empty only when there are none, and otherwise open with the first key's quote |
| Snapshot.RecordMembers | src/DownloadManager.cpp:226-237 | a record is written as twelve members with distinct keys |
| Snapshot.RecordJson | src/DownloadManager.cpp:226-238 | a record is written as one object, from `{` to `}` |
| Snapshot.CanOpen | src/DownloadManager.cpp:233 | `canOpen` holds only for a finished download with a path |
| Snapshot.JsonEscape | src/DownloadManager.cpp:404-439 | the loop computes the escaped text |
| Snapshot.LookupAt | src/DownloadManager.cpp:226-238 | a key at its first position is what a reader of the object finds |
| Snapshot.RevealFlagIsOpenFlag | src/DownloadManager.cpp:233-234 | `canOpen` is completed-with-a-path, and `canReveal` carries that same value |
| Snapshot.RecordStringsRecoverable | src/DownloadManager.cpp:227-230 | the url and status members hold the record's own url and status name, and both read back exactly |
| Snapshot.Max | src/DownloadManager.cpp:219 | the largest id of a non-empty set is in it and no id is larger |
| Snapshot.DescendingIds | src/DownloadManager.cpp:219 | the reverse iteration lists nothing exactly for an empty map; its contents and order are the next two rows |
| Snapshot.DescendingIdsMembers | src/DownloadManager.h:104 | the listing has each id of the map exactly once |
| Snapshot.DescendingIdsSorted | src/DownloadManager.h:104 | the listing is strictly decreasing, newest id first |
| Snapshot.ListingBelow | src/DownloadManager.cpp:219 | when every id of a set is below m, so is every id of its listing |
| Snapshot.ConsDecreasing | src/DownloadManager.cpp:219 | a larger id in front keeps the listing decreasing |
| Snapshot.ItemsJson | src/DownloadManager.cpp:219-239 | the list body is empty exactly when there are no ids; otherwise it runs from the first object's `{` to the last one's `}` |
| Snapshot.SnapshotJson | src/DownloadManager.cpp:214-242 | the snapshot is wrapped in `{"items":[` and `]}`, and is `{"items":[]}` exactly when there are no records |
| Snapshot.EmptySnapshot | src/DownloadManager.cpp:216-241 | no records give `{"items":[]}` |
| Snapshot.SingleSnapshot | src/DownloadManager.cpp:214-242 | one record gives its object inside the list |
| Downloads.DefaultDisplayName | src/DownloadManager.cpp:103-106 | the name from the URL is never empty and is a safe file name |
| Downloads.WithDisplayName | src/DownloadManager.cpp:103-106 | an empty display name is filled from the URL; a non-empty one is kept |
| Downloads.RequestedRecord | src/DownloadManager.cpp:92-110 | a request resets the record: Requested, no error or path, unset finish time, -1 expected and 0 received bytes, start time now; display name set only when empty |
| Downloads.BegunRecord | src/DownloadManager.cpp:112-154 | in progress on the unique path with the expected length and 0 received bytes; on a failed open, Failed with "Failed to open file for writing" and no path |
| Downloads.BeginUrl | src/DownloadManager.cpp:117-118 | a stored URL is kept; the URL is empty only when both the stored and the reported one are |
| Downloads.BeginPath | src/DownloadManager.cpp:116-132 | the file `OnBeginDownload` opens lies under the download directory |
| Downloads.MaterializedPath | src/DownloadManager.cpp:129-132 | the derived, sanitised and unique path lies under the download directory |
| Downloads.DotNameNotReused | src/DownloadManager.cpp:368-384 | a suggested name "." does not land on the directory's own `.` entry unless all 999 numbered names exist too |
| Downloads.ReceivedRecord | src/DownloadManager.cpp:164-172 | Requested becomes InProgress, the received count grows by exactly the chunk length, an empty display name is filled from the URL, and nothing else changes |
| Downloads.FinishedRecord | src/DownloadManager.cpp:181-190 | Completed unless Failed or Cancelled; the count is raised to the expected size when known and smaller; the finish time is now; an empty display name is filled; nothing else changes |
| Downloads.FailedRecord | src/DownloadManager.cpp:200-208 | Failed with "Download failed", no path, finish time now, an empty display name filled; the byte counts, URL and times stay |
| Downloads.CancelledRecord | src/DownloadManager.cpp:316-317 | only the status changes, to Cancelled |
| Downloads.FinishIdempotent | src/DownloadManager.cpp:177-194 | a second finish only moves the finish time |
| Downloads.FailIdempotent | src/DownloadManager.cpp:196-212 | a second failure only moves the finish time |
| Downloads.ReceiveAdditive | src/DownloadManager.cpp:168-172 | two chunks count as one chunk of their total size |
| Downloads.FailedAndCancelledNotOpenable | src/DownloadManager.cpp:233-234 | failed and cancelled downloads are never openable; cancel keeps the path |
| Downloads.FinishKeepsFailure | src/DownloadManager.cpp:183-186 | a finish completes exactly the downloads that were not failed or cancelled, and leaves no fewer bytes than expected |
| Downloads.SuccessfulDownload | src/DownloadManager.cpp:112-194 | begin, any chunks, then finish: completed on its path, openable iff the path is non-empty, counting the chunk total raised to the expected size |
| Downloads.RequestResetsTerminal | src/DownloadManager.cpp:97 | a request brings even a terminal record back to Requested |
| Downloads.ReceiveAllSpec | src/DownloadManager.cpp:168-172 | chunks on an in-progress record add their total and change nothing else but the display name |
| Downloads.Cleared | src/DownloadManager.cpp:244-259 | clearing keeps a subset of the records, and every record with an open stream unchanged |
| Downloads.ClearedProperties | src/DownloadManager.cpp:244-259 | clearing is idempotent, keeps every record with an open stream and every non-terminal one unchanged, and leaves nothing clearable |
| Downloads.DownloadManager.constructor | src/DownloadManager.h:103-105 | the id counter starts at 1 with no records and no streams, over the given files and directories |
| Downloads.DownloadManager.NextDownloadId | src/DownloadManager.cpp:86-90 | returns the counter and advances it by exactly one |
| Downloads.DownloadManager.GetOrCreateRecord | src/DownloadManager.cpp:459-470 | an existing record is returned untouched; otherwise a fresh one is stored under the id |
| Downloads.DownloadManager.FillDisplayName | src/DownloadManager.cpp:103-106 | fills an empty display name through the sanitising loop |
| Downloads.DownloadManager.CloseStream | src/DownloadManager.cpp:480-495 | removes the stream, and deletes the file only when asked and the record's path is non-empty |
| Downloads.DownloadManager.OnRequestDownload | src/DownloadManager.cpp:92-110 | stores the reset record on the URL up to its first NUL, touches no stream or file, and always accepts |
| Downloads.DownloadManager.MaterializePath | src/DownloadManager.cpp:127-132 | derive, sanitise and make unique against every file and directory present |
| Downloads.DownloadManager.OnBeginDownload | src/DownloadManager.cpp:112-154 | with the URL and suggestion cut at their first NUL, stores the begun record; when the open succeeds (never on a directory), creates the empty file at the unique path and registers the stream; otherwise no stream or file is added |
| Downloads.DownloadManager.OpenStream | src/DownloadManager.cpp:138-153 | registers the stream and the empty file only when the open succeeded |
| Downloads.DownloadManager.OnReceiveDataForDownload | src/DownloadManager.cpp:156-175 | without a stream nothing changes; otherwise the record is updated and the chunk appended to the file the stream was opened on |
| Downloads.DownloadManager.OnFinishDownload | src/DownloadManager.cpp:177-194 | finishes the record, closes the stream, keeps every file |
| Downloads.DownloadManager.OnFailDownload | src/DownloadManager.cpp:196-212 | fails the record and closes the stream; the path is cleared first, so no file is deleted |
| Downloads.DownloadManager.CancelDownload | src/DownloadManager.cpp:310-321 | false and no change without a stream; otherwise cancels, closes the stream, deletes the file at the kept path and returns true |
| Downloads.DownloadManager.ClearFinishedDownloads | src/DownloadManager.cpp:244-259 | removes exactly the terminal records without a stream |
| Downloads.DownloadManager.OpenDownload | src/DownloadManager.cpp:261-268 | refuses unless the record exists, is completed and has a path |
| Downloads.DownloadManager.RevealDownload | src/DownloadManager.cpp:286-293 | refuses unless the record exists and has a path, whatever its status |
| Downloads.DownloadManager.MaxKey | src/DownloadManager.cpp:219 | the largest id still to be written |
| Downloads.DownloadManager.GetDownloadsJSON | src/DownloadManager.cpp:214-242 | the loop writes every record once, newest id first, as the snapshot |
| Downloads.RevealWiderThanSnapshot | src/DownloadManager.cpp:234 | a cancelled download keeps its path but the snapshot says it cannot be revealed |
| AdBlock.TrimStart | src/AdBlocker.cpp:173 | the index of the first non-space (space, tab, CR, LF) character |
| AdBlock.TrimEnd | src/AdBlocker.cpp:176 | one past the last non-space character |
| AdBlock.Trim | src/AdBlocker.cpp:171-178 | "" exactly for all-space input; otherwise starts and ends with a non-space |
| AdBlock.TrimIsInfix | src/AdBlocker.cpp:171-178 | the input is spaces, the result, spaces |
| AdBlock.TrimOfTrimmed | src/AdBlocker.cpp:171-178 | a text with no space at either end is its own trim |
| AdBlock.TrimIdempotent | src/AdBlocker.cpp:171-178 | trimming twice is trimming once |
| AdBlock.LowerChar | src/AdBlocker.cpp:166-167 | A-Z become a-z; every other character is unchanged |
| AdBlock.ToLower | src/AdBlocker.cpp:164-169 | keeps the length and lower-cases each character in place |
| AdBlock.ToLowerProperties | src/AdBlocker.cpp:164-169 | no capital is left, a lower-case text is unchanged, and lower-casing is idempotent |
| AdBlock.ToLowerKeepsTrim | src/AdBlocker.cpp:138 | lower-casing commutes with trimming |
| AdBlock.HostMatches | src/AdBlocker.cpp:12-24 | a match ends with the rule; a host no longer than the rule matches only when equal to it |
| AdBlock.SubdomainMatches | src/AdBlocker.cpp:12-24 | every subdomain of a rule matches it |
| AdBlock.MatchIsSubdomainOrExact | src/AdBlocker.cpp:12-24 | a match is the rule itself or something, a `.`, then the rule |
| AdBlock.NoMatchWithoutDot | src/AdBlocker.cpp:20-22 | "badexample.com" does not match "example.com" |
| AdBlock.EmptyRuleMatchesTrailingDot | src/AdBlocker.cpp:20-22 | the empty rule matches every host ending in `.` |
| AdBlock.StripLeadingDots | src/AdBlocker.cpp:130-132 | removes exactly the leading `.`s |
| AdBlock.NormalizedHost | src/AdBlocker.cpp:125-134 | a stored host is lower-case without a leading `.`; none exactly when the input is all spaces |
| AdBlock.NormalizedNeedle | src/AdBlocker.cpp:136-142 | a stored substring is non-empty, lower-case and trimmed; none exactly when the input is all spaces |
| AdBlock.Contains | src/AdBlocker.cpp:158 | a needle at the front is found, and a found needle is no longer than the text |
| AdBlock.Allowed | src/AdBlocker.cpp:98-123 | file, data and about are always allowed, and with no rules every request is |
| AdBlock.OnlyDotsGiveEmptyRule | src/AdBlocker.cpp:127-133 | the emptiness test precedes the dot stripping, so all dots store "" |
| AdBlock.ContainsIff | src/AdBlocker.cpp:158 | `find` succeeds exactly when the needle occurs at some index |
| AdBlock.OccursShift | src/AdBlocker.cpp:158 | an occurrence in the tail is one place further in the whole |
| AdBlock.HostCaseInsensitive | src/AdBlocker.cpp:105-112 | hosts that differ only in case get the same decision |
| AdBlock.LowerCString | src/AdBlocker.cpp:107-108 | lower-casing commutes with the C string cut |
| AdBlock.RuleBlocksSubdomain | src/AdBlocker.cpp:98-123 | outside file, data and about, a stored rule blocks every subdomain of it, whatever the case of the subdomain's prefix |
| AdBlock.SkipSpaces | src/AdBlocker.cpp:64-68 | the next non-whitespace index for `>>` |
| AdBlock.TokenEnd | src/AdBlocker.cpp:64-68 | where a `>>` token ends |
| AdBlock.NextToken | src/AdBlocker.cpp:64-68 | a `>>` token is non-empty and holds no whitespace |
| AdBlock.UpToHat | src/AdBlocker.cpp:51-53 | the prefix before the first `^` |
| AdBlock.ClassifyLine | src/AdBlocker.cpp:40-85 | a host line has a non-empty host; a substring line is the trimmed line |
| AdBlock.BlankAndCommentLinesSkipped | src/AdBlocker.cpp:41-44 | blank and `#` lines add nothing |
| AdBlock.AdblockDomainRule | src/AdBlocker.cpp:47-57 | a line of two bars, dom, then `^...` is the host rule dom, whatever follows the `^` |
| AdBlock.UpToHatPrefix | src/AdBlocker.cpp:51-53 | text without `^` followed by `^...` is cut at that `^` |
| AdBlock.HostsFileHost | src/AdBlocker.cpp:60-75 | the host read from a hosts-file line is a non-empty token without whitespace |
| AdBlock.HostsFileLine | src/AdBlocker.cpp:60-75 | "ip host ..." (ip with a `.` or "::1") is the host rule for host; the address and any further tokens are ignored |
| AdBlock.HostsFileHostOf | src/AdBlocker.cpp:62-70 | the first two tokens of "ip host ..." are read as ip and host |
| AdBlock.TokenEndAt | src/AdBlocker.cpp:64-68 | a token runs to the next whitespace |
| AdBlock.SkipSpacesAt | src/AdBlocker.cpp:64-68 | `>>` skips the whole run of whitespace |
| AdBlock.PlainDomainLine | src/AdBlocker.cpp:77-82 | a remaining line with a `.` and no space is a host rule |
| AdBlock.AdsJsIsHostRule | src/AdBlocker.cpp:78-81 | "*ads.js" is read as a host rule |
| AdBlock.FallbackSubstringLine | src/AdBlocker.cpp:84-85 | every other line is a substring rule |
| AdBlock.HostsAfterIdempotent | src/AdBlocker.h:64 | adding the same host twice stores it once |
| AdBlock.NeedlesKeepDuplicates | src/AdBlocker.h:65 | substrings keep their order and their duplicates |
| AdBlock.HostsAfter | src/AdBlocker.cpp:125-134 | adding a host keeps the old ones and adds at most the normalised host; an all-space input adds nothing |
| AdBlock.NeedlesAfter | src/AdBlocker.cpp:136-142 | adding a substring keeps the old list as a prefix and appends the normalised substring, unless the input is all spaces |
| AdBlock.ApplyLines | src/AdBlocker.cpp:37-86 | a load only adds rules, at most one substring per line |
| AdBlock.ApplyLinesNormalized | src/AdBlocker.cpp:37-86 | every rule a load stores is normalised |
| AdBlock.HostsAfterNormalized | src/AdBlocker.cpp:125-134 | adding a host keeps every stored host normalised |
| AdBlock.NeedlesAfterNormalized | src/AdBlocker.cpp:136-142 | adding a substring keeps every stored substring normalised |
| AdBlock.AdBlocker.constructor | src/AdBlocker.h:64-68 | no rules, and enabled |
| AdBlock.AdBlocker.SetEnabled | src/AdBlocker.h:45-49 | sets the switch and nothing else |
| AdBlock.AdBlocker.Enabled | src/AdBlocker.h:50-54 | returns the switch |
| AdBlock.AdBlocker.Clear | src/AdBlocker.cpp:91-96 | empties both containers |
| AdBlock.AdBlocker.AddBlockedHost | src/AdBlocker.cpp:125-134 | stores the normalised host, keeps the rules normalised, and changes nothing else |
| AdBlock.AdBlocker.NormalizeHostRule | src/AdBlocker.cpp:127-133 | the trim, lower-casing, emptiness test and dot-erasing loop compute the normalised host, or none |
| AdBlock.AdBlocker.EraseLeadingDots | src/AdBlocker.cpp:131-132 | the erase loop strips exactly the leading dots |
| AdBlock.AdBlocker.AddURLSubstring | src/AdBlocker.cpp:136-142 | appends the normalised substring, unless the input is all spaces |
| AdBlock.AdBlocker.IsBlockedHost | src/AdBlocker.cpp:144-152 | true exactly when some rule matches the host |
| AdBlock.AdBlocker.IsBlockedURL | src/AdBlocker.cpp:154-162 | true exactly when some substring occurs in the URL |
| AdBlock.AdBlocker.OnNetworkRequest | src/AdBlocker.cpp:98-123 | allows file, data and about; otherwise blocks exactly when the lower-cased host matches a rule or the lower-cased URL contains a substring |
| AdBlock.AdBlocker.LoadDefaultBlocklist | src/AdBlocker.cpp:27-89 | false and no change when the file does not open; otherwise the rules are exactly those of the lines, in order |
| Favicon.IsHttpUrl | src/UI.cpp:456-457 | a URL that passes the `strncmp` tests starts with "http" and is at least as long as "http://" |
| Favicon.FindFrom | src/UI.cpp:459 | `strstr`: the first occurrence at or after a position, or none |
| Favicon.FindChar | src/UI.cpp:463 | `strchr`: the first index at or after a position holding the character, or none |
| Favicon.Origin | src/UI.cpp:456-474 | only an http or https URL has an origin, and it is a prefix of the URL |
| Favicon.UI.OriginOf | src/UI.cpp:456-474 | the scheme test, `strstr` and `strchr` compute the origin |
| Favicon.FaviconURL | src/UI.cpp:446-484 | the answer is "" or ends with "/favicon.ico" |
| Favicon.SchemeSeparatorFound | src/UI.cpp:459-461 | in an http(s) URL, `strstr` finds the `://` that ends the scheme |
| Favicon.FindFromAt | src/UI.cpp:459 | the search stops at the first occurrence |
| Favicon.OriginShape | src/UI.cpp:462-474 | the origin is a prefix with no `/` after the scheme, ending at the first such `/` or at the end |
| Favicon.NonHttpHasNoFavicon | src/UI.cpp:456-457 | a URL not starting with "http://" or "https://" gets "" |
| Favicon.OriginOfPage | src/UI.cpp:462-474 | an origin followed by any path has that origin |
| Favicon.FindCharAt | src/UI.cpp:463 | the search stops at the first occurrence |
| Favicon.SameOriginSameFavicon | src/UI.cpp:449-450 | pages of one origin get the same favicon, the origin plus "/favicon.ico" |
| Favicon.UI.constructor | src/UI.h:287 | the cache starts empty |
| Favicon.UI.GetFaviconURL | src/UI.cpp:446-484 | returns the favicon URL; a hit leaves the cache and returns the stored value; a miss adds only that origin's entry |

## Left out

- Locking is left out (the mutexes, and `NotifyChangeLocked`'s unlock, callback and relock). Every operation is atomic and sequential.
- `std::chrono` times are integer millisecond parameters (`now`). A finish time of 0 stands for the unset time point.
- Foreign calls are left out: the file stream, `std::filesystem`, the shell (`ShellExecuteW`, `std::system`), `getenv`, `DetermineDefaultDirectory` and `EnsureDirectoryExists`. The directory contents are the `files` map and the `dirs` set. `EnsureDirectoryExists` is taken to have succeeded, so the download directory's `.` and `..` entries exist; no operation creates or removes a directory. Whether a file opens is the `streamOpen` parameter, except that a path naming a directory never opens as a file. The shell's answer is `shellOpens`.
- Downloads.DownloadManager.OpenDownload: only the checks before the shell call are modelled; the command line is not built.
- Downloads.DownloadManager.RevealDownload: only the checks before the shell call are modelled; the command line is not built.
- Paths follow POSIX `std::filesystem::path` with `/` as the only separator. The Windows variant and wide-string conversion are left out.
- `RemoveDownload`, `HasActiveDownloads`, `PruneStaleRequests`, `last_started_sequence` and `PruneStaleRequestsLocked` are declared but have no body in the source, so they are not modelled.
- The `sequence`, `start_sequence_counter_` and `last_started_sequence_` fields are never written. `Record.sequence` stays 0.
- `preferred_name`, `suppress_ui` and `placeholder` are never read, so the record leaves them out.
- The destructor, which closes every open stream, is left out.
- The streams carry no state of their own. `active` keeps the path each stream was opened on.
- Downloads.DownloadManager.OnReceiveDataForDownload: a write always succeeds; write errors of the stream are not modelled.
- Byte counts are unbounded integers; the 64-bit wrap of `received_bytes` is not modelled.
- The id counter `nextId` is an unbounded `nat`. `DownloadId` is `ultralight::DownloadId` (`src/DownloadManager.h:25`), whose width is not part of this model, so a wrap of the counter is not modelled.
- Characters stand for the bytes of the UTF-8 text. `tolower` is the C locale's (A-Z only).
- `LoadDefaultBlocklist` reads a sequence of lines instead of an `ifstream`. Whether the file opens is the `fileOpens` parameter.
- `LoadBlocklist` and `LoadBlocklistsInDirectory` are called from the browser start-up but declared nowhere, so they are not modelled.
- The request decision takes the protocol, host and URL texts instead of the engine's request object.
- `favicon_cache_limit_` (128) is never used by the source, so the cache grows without a bound as in the code.
- A null page URL (the `!url` check) is modelled as the empty text. The empty text gets "", as the code gives.
- The rest of the browser is not part of this model: tabs, window and overlay routing, JavaScript bindings, and the page scripts.
