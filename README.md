# yt-dlp front end: format table, format selection and download arguments

server.js is a small Express service in front of the `yt-dlp` command-line
tool. This project models the logic it runs in-process and proves properties
of it:

- **`/get-formats`**. It checks the URL, runs `yt-dlp -F <url> --no-warnings`
  and parses the format table yt-dlp prints, one record per recognised line.
  If no line is recognised it fails with "Nenhum formato encontrado". It then
  reduces the table with `processFormats`:
  - video formats are grouped by resolution;
  - within each group, the formats whose filesize `convertToBytes` can read are
    stable-sorted by size and the middle one (index ⌊n/2⌋) is kept;
  - finally the middle audio format by bitrate (`parseInt(tbr) || 0`) is
    appended.
- **`convertToBytes`** reads a filesize column such as `12.5MiB` as a number
  of bytes, or NaN.
- **`/download`** checks `url`, `format_id` and `tipo` and builds the
  argument vector for yt-dlp.

Modules, one per file:

- `Text`: the character classes of the JavaScript patterns, a greedy-run
  scanner, `includes`, and `split('\n')`.
- `Runs`: a pattern made of runs `[c]+`, matched greedily. It is proved to
  find the same match as a backtracking engine when consecutive runs share no
  character.
- `JsNumbers`: `parseFloat` on `[\d.]+`, and `parseInt(s) || 0` (with its sign
  and `0x` handling).
- `Seqs`: `filter`, and the concatenation a `forEach` with `push` produces.
- `StableSort`: the stable sort that `Array.prototype.sort` performs with a
  numeric comparator. `SortBy` specifies it. `SortInPlace` is an in-place
  insertion sort on an array, proved to produce it. `StableMedian` describes
  the element at index ⌊n/2⌋ without sorting.
- `FormatParser`: the line pattern and the parsing loop.
- `SizeNormalizer`: `convertToBytes`.
- `FormatSelector`: `processFormats`.
  - `SelectFormats` is the specification.
  - `ProcessFormats` follows the source step by step and is proved equal to
    it. It builds the grouping object as a `map` together with its key order,
    sorts arrays in place and pushes onto the result.
  - `Object.keys` is modelled as JavaScript defines it: keys that are array
    indices come first, in ascending order, then the other keys in insertion
    order.
- `CommandLine`: a reference reader for the argument vectors the server
  builds. It is a simplified reader, not yt-dlp's option parser, and it knows
  only the server's own options. Options that take a value consume the next
  argument. Any other argument starting with `-` is a switch. The remaining
  arguments are URLs. What the argument lists ask for is stated against this
  reader.
- `Server`:
  - the URL check;
  - the `/get-formats` handler over a given yt-dlp run;
  - the `/download` checks and its `args`.

The definitions `IsVideo`, `IsAudio`, `Group`, `PickFor`, `VideoPicks`,
`AudioPick` (`FormatSelector`), `CollectBy`, `Codec`, `TrimStart`
(`FormatParser`), `IsYoutubeUrl`, `BaseArgs`, `AudioArgs`, `VideoArgs`,
`CodeText` (`Server`) and `ServerError.Message` (`Errors`) transcribe source
constructs and have no contract of their own. The lemmas in the table below
state their properties.

Two behaviours of the source are made explicit:
- A unit in any other case, such as `mib`, passes the case-insensitive
  pattern, but the lookup table is case-sensitive, so the factor is 1.
- Nothing separates the URL from the options on yt-dlp's command line, on
  either route. `/download` never applies the YouTube URL check
  (`DownloadFailsIff`), and the check of `/get-formats` only looks for the
  host text anywhere in the URL, so `-fyoutube.com` passes it
  (`CheckUrlAdmitsOption`). A URL that starts with `-` is parsed by yt-dlp
  as one of its own options, with any value attached to it: `-fworst` is
  `-f worst` and `--output=x` is `-o x`. A request body can thus add
  options to either command. The reference reader only records such a URL
  as an option (`UrlReading`), and then finds no URL to fetch.

## Model

| member | source | states |
|---|---|---|
| Text.Span | server.js:33 | splits off the longest prefix of a character class: the rest does not start with one, and the two parts concatenate back to the input |
| Text.SpanUnique | server.js:33 | a run of the class followed by a character outside it is exactly what the scanner splits off |
| Text.Includes | server.js:14 | `includes` and an unanchored literal `match` hold exactly when the text occurs at some position |
| Text.Split | server.js:29 | `split('\n')` gives at least one piece and no piece contains the separator |
| Text.JoinSplit | server.js:29 | joining the pieces of `split` with the separator gives back the text |
| Text.SplitJoin | server.js:29 | splitting a join of separator-free pieces gives the pieces back |
| Runs.MatchRuns | server.js:33 | a greedy match of the runs splits the text into pieces that fit the runs and concatenate to the text |
| Runs.MatchRunsGreedy | server.js:33 | no run of the greedy match could take one more character |
| Runs.MatchRunsFinds | server.js:33 | whenever any split fits the pattern, the greedy match exists and captures the same pieces (runs whose neighbours share no character) |
| JsNumbers.DecimalString | server.js:26 | the decimal numeral of a number is a nonempty digit string with no leading zero |
| JsNumbers.DecimalStringValue | server.js:112 | the value of the decimal numeral of n is n |
| JsNumbers.ParseFloatPrefix | server.js:135 | `parseFloat` of digits and dots is NaN exactly for the empty text and texts starting with `.` followed by nothing or another `.`; otherwise it is non-negative |
| JsNumbers.ParseFloatDecimal | server.js:135 | `whole.fraction` followed by text that cannot extend it is read as its exact decimal value |
| JsNumbers.ParseFloatWhole | server.js:135 | a digit string is read as the integer it denotes |
| JsNumbers.ParseIntOrZero | server.js:112-113 | the bitrate read by parseInt, with 0 for NaN, is 0 unless the text holds a nonzero digit |
| JsNumbers.ParseIntWithoutDigits | server.js:112-113 | text with no digit of the base after white space, a sign and `0x` reads as 0 |
| JsNumbers.ParseIntOfDecimalRun | server.js:112-113 | `parseInt` of a run of decimal digits, optionally after `-` (and not `0x`), is its signed value |
| JsNumbers.ParseIntDecimal | server.js:112-113 | `parseInt` with the fallback to 0 reads back the numeral of any integer, whatever non-digit unit follows it, except that `0` followed by `x` or `X` starts a hexadecimal numeral |
| JsNumbers.ParseIntPlus | server.js:112-113 | a leading `+` is read and dropped: `+` and the numeral of n reads as n |
| JsNumbers.ParseIntHex | server.js:112-113 | after `0x` or `0X`, the run of hexadecimal digits is read in base 16 |
| Seqs.Filter | server.js:76 | `filter` keeps exactly the elements satisfying the predicate |
| Seqs.FilterDistinct | server.js:76 | filtering a sequence without repetitions gives one without repetitions |
| Seqs.DistinctPermutation | server.js:88 | a permutation of a sequence without repetitions has none |
| Seqs.FilterPartition | server.js:88 | filtering by a predicate and by its negation splits the elements as a multiset |
| Seqs.FilterConcat | server.js:76 | filtering distributes over concatenation |
| Seqs.FilterAllOrNone | server.js:76 | filtering keeps everything when everything passes and nothing when nothing passes |
| Seqs.FilterKeepsOrder | server.js:88 | two elements that pass a filter keep their relative order in it |
| Seqs.FilterIncreasing | server.js:88 | a filter of a sequence strictly increasing in some rank is strictly increasing too |
| Seqs.FlatMapFrom | server.js:88-105 | each element pushed by a `forEach` comes from an input element, whose own output holds it |
| Seqs.FlatMapCover | server.js:88-105 | every input element with an output has it in the result |
| Seqs.FlatMapOrder | server.js:88-105 | with inputs in increasing rank and at most one output each, the outputs come in the order of their owners |
| Seqs.FlatMapDistinct | server.js:88-105 | with distinct inputs and at most one output each, no two results share an owner |
| StableSort.SortBy | server.js:99 | the stable sort keeps the length; that it is sorted, a permutation and stable is proved below |
| StableSort.InsertPermutes | server.js:99 | insertion adds exactly the inserted element to the multiset |
| StableSort.SortByPermutes | server.js:99 | the sort is a permutation of its input |
| StableSort.InsertSorted | server.js:99 | inserting into a sorted sequence keeps it sorted |
| StableSort.SortBySorted | server.js:99 | the sort is ascending by key |
| StableSort.InsertKeeps | server.js:99 | insertion adds the element to the counts and to the end of its key's elements |
| StableSort.SortByKeeps | server.js:99 | sorting keeps how many elements are below or at most each key, and keeps the elements of each key in input order (stability) |
| StableSort.SortedAt | server.js:99 | in a sorted sequence, the element at k is preceded by every smaller key and is the (k − smaller)-th of its key |
| StableSort.StableSortAt | server.js:99 | the k-th element of the stable sort, described through the input alone |
| StableSort.MiddleIsStableMedian | server.js:102-103 | the element at ⌊n/2⌋ of the stable sort is the stable median of the input |
| StableSort.InsertAt | server.js:99 | moving a[i] left past larger keys leaves the prefix equal to the insertion of a[i] into it and the rest untouched |
| StableSort.SortInPlace | server.js:99 | the in-place sort leaves the array equal to the stable sort of its old contents |
| FormatParser.LinePatternSeparated | server.js:33 | consecutive runs of the line pattern share no character |
| FormatParser.MatchLine | server.js:33-46 | a recognised line gives a record whose full_info is the line |
| FormatParser.MatchLineIff | server.js:33-34 | a line is recognised exactly when it splits into digits, white space, word characters and five more white-space-separated columns, then anything |
| FormatParser.LineMatchIs | server.js:33 | when the seventh column ends the line or is followed by white space, the match captures exactly those pieces |
| FormatParser.MatchLineFields | server.js:35-45 | the record holds the seven columns, the codec (the rest after white space, up to a line terminator) and the line |
| FormatParser.CollectByFrom | server.js:32-47 | each collected element is what one of the lines yields |
| FormatParser.CollectByAppend | server.js:32-47 | lines are matched independently and in order |
| FormatParser.CollectByEmpty | server.js:49 | nothing is collected exactly when no line matches |
| FormatParser.Collect | server.js:30-47 | at most one record per line, each being what its own full_info line yields |
| FormatParser.ParseOutput | server.js:29-53 | the records are nonempty, at most one per line, each what its own full_info line yields; otherwise the failure is NoFormatsFound |
| FormatParser.ParseFormats | server.js:29-53 | the parsing loop computes ParseOutput: the records, or "Nenhum formato encontrado" |
| FormatParser.ParseFailsIff | server.js:49-51 | the parse fails, with NoFormatsFound, exactly when no line of the output is recognised |
| SizeNormalizer.ConvertToBytes | server.js:123-140 | a size, when defined, is non-negative |
| SizeNormalizer.UnitFactor | server.js:126-139 | the factor is at least 1, and above 1 exactly for `KiB`, `MiB` and `GiB` spelt that way |
| SizeNormalizer.UnitsIncrease | server.js:126-130 | each unit is 1024 times the previous one: 1 < 1 KiB < 1 MiB < 1 GiB |
| SizeNormalizer.Scale | server.js:139 | multiplying by a unit factor keeps NaN as NaN and a non-negative number non-negative |
| SizeNormalizer.ConvertAccepts | server.js:132-139 | digits-and-dots, white space and an optional unit in any case are read as parseFloat of the number times the unit's factor |
| SizeNormalizer.ConvertDefinedIff | server.js:124-135 | a size is defined exactly for texts of that shape whose number parseFloat reads |
| SizeNormalizer.ConvertScales | server.js:126-139 | a unit multiplies the bare number's bytes by its factor, which is 1 for any spelling but `KiB`, `MiB`, `GiB` |
| SizeNormalizer.ConvertMebibytes | server.js:126-139 | `12.5MiB` is 13107200 bytes |
| SizeNormalizer.ConvertTwoDots | server.js:135 | `1.2.3` is 1.2 bytes |
| SizeNormalizer.ConvertLoneDot | server.js:135 | `.` is NaN |
| SizeNormalizer.ConvertLowerCaseUnit | server.js:139 | `3mib` is 3 bytes: the factor lookup is case-sensitive |
| SizeNormalizer.ConvertRejects | server.js:124-133 | `~1.2MiB`, `5MB` and the empty text are NaN |
| FormatSelector.ObjectKeys | server.js:88 | Object.keys lists as many keys as were added; which and in what order is proved below |
| FormatSelector.FirstOrder | server.js:79-84 | the keys of the grouping object are distinct and include every format's resolution; that they come in first-appearance order is FirstOrderFirstAppearance |
| FormatSelector.FirstIndex | server.js:79-82 | the position of a resolution's first format, which has that resolution, or the table's length when none has it |
| FormatSelector.FirstIndexIsFirst | server.js:79-82 | no format before that position has the resolution |
| FormatSelector.GroupIsFilter | server.js:79-84 | a resolution's group is the table filtered by that resolution, so it keeps the table's order |
| FormatSelector.FirstOrderFirstAppearance | server.js:79-84 | every key occurs in the table, and of two keys the one added earlier first occurs earlier |
| FormatSelector.WithSizes | server.js:92-95 | the map-and-filter keeps exactly the group's formats with a readable size, each with its convertToBytes value |
| FormatSelector.WithSizesInOrder | server.js:92-95 | the map-and-filter keeps each format with a readable size once, in the group's order, carrying its convertToBytes value |
| FormatSelector.SelectFormats | server.js:72-121 | every entry of the answer is a format of the table |
| FormatSelector.ProcessFormats | server.js:72-121 | processFormats as written computes SelectFormats |
| FormatSelector.GroupByResolution | server.js:79-84 | after the `forEach`, the object has one key per resolution, added in first-appearance order, holding that resolution's formats in order |
| FormatSelector.PickVideos | server.js:88-105 | the per-key sort-and-push loop computes VideoPicks |
| FormatSelector.PickAudio | server.js:108-118 | the audio sort-and-push computes AudioPick |
| FormatSelector.ObjectKeysPermutes | server.js:88 | Object.keys lists every key once |
| FormatSelector.SortedPartFirst | server.js:88 | sorting the passing elements first puts them ahead of the others, in key order |
| FormatSelector.OthersKeepOrder | server.js:88 | the elements that do not pass keep their order |
| FormatSelector.ObjectKeysOrder | server.js:88 | array-index keys come first, ascending, then the other keys in insertion order |
| FormatSelector.ObjectKeysNamed | server.js:88 | with no array-index key, Object.keys is the insertion order |
| FormatSelector.GroupMembers | server.js:79-84 | a group holds exactly the formats of its resolution |
| FormatSelector.FirstOrderMembers | server.js:79-84 | every key is some format's resolution |
| FormatSelector.PickForShape | server.js:92-104 | a resolution contributes at most one entry, exactly when one of its formats has a readable size, and the entry is such a format carrying its size |
| FormatSelector.MiddleIsMember | server.js:102-103 | the middle element of the sorted array is one of the elements sorted |
| FormatSelector.VideoPicksShape | server.js:88-105 | each video entry is its key's pick, every key with a pick has an entry, and distinct keys give distinct resolutions |
| FormatSelector.VideoPicksSized | server.js:94-103 | every video entry carries a size |
| FormatSelector.VideoPicksFrom | server.js:88-104 | every video entry is one of the formats grouped |
| FormatSelector.VideoPicksEntries | server.js:76-103 | every video entry is a video format of the table carrying convertToBytes of its filesize |
| FormatSelector.AudioPickEntry | server.js:108-117 | the audio entry is an audio format of the table |
| FormatSelector.AudioPickSize | server.js:108-118 | at most one audio entry, exactly when there are audio formats, and it has no size |
| FormatSelector.AudioPickIsMedian | server.js:111-116 | the audio pick is the stable median by `parseInt(tbr)`, 0 when not numeric |
| FormatSelector.VideoPart | server.js:103-117 | an entry with a size belongs to the video part, at the same index |
| FormatSelector.SelectFormatsSizes | server.js:94-117 | only the last entry may lack a size, and it does exactly when the table has audio formats |
| FormatSelector.SelectFormatsVideoEntries | server.js:76-103 | every sized entry is a video format of the table (a resolution, no "audio" in channels) with its size in bytes |
| FormatSelector.SelectFormatsAudioLast | server.js:108-118 | with audio formats, the last entry is an audio format of the table |
| FormatSelector.SelectFormatsOnePerResolution | server.js:79-103 | no resolution has two video entries |
| FormatSelector.ResolutionIsKey | server.js:79-88 | every video format's resolution is a key of the grouping object |
| FormatSelector.VideoPicksCover | server.js:88-104 | a resolution has a video pick exactly when one of its video formats has a readable size |
| FormatSelector.PickInAnswer | server.js:103-117 | each video pick is the answer's entry at the same index |
| FormatSelector.SelectFormatsCovers | server.js:76-104 | a resolution has a sized entry exactly when some video format of it has a readable size |
| FormatSelector.VideoEntryIsMedian | server.js:92-103 | a video entry is the stable median by size of its resolution's sized formats |
| FormatSelector.ArrayIndexNumeral | server.js:88 | an array-index key is the decimal numeral of its value |
| FormatSelector.ArrayIndexInjective | server.js:88 | two array-index keys of the same value are the same key |
| FormatSelector.NamedKeysRank | server.js:79-88 | of two keys that are not array indices, the one visited first has the earlier first video format |
| FormatSelector.IndexKeysRank | server.js:88 | an array-index key is visited only after array-index keys of smaller value |
| FormatSelector.ObjectKeysRank | server.js:79-88 | the keys visited come array indices first by increasing value, then the other resolutions by increasing position of their first video format |
| FormatSelector.SelectFormatsVideoOrder | server.js:79-104 | the video entries follow Object.keys: array-index resolutions first, ascending, then the others in the order of their first video formats |
| FormatSelector.AudioEntryIsMedian | server.js:108-117 | the last entry is the stable median by bitrate of all audio formats |
| Server.CheckUrl | server.js:13-14 | an accepted URL is the nonempty URL given; a refusal is "URL é obrigatória" or "URL do YouTube inválida" |
| Server.CheckUrlIff | server.js:13-14 | a URL is accepted exactly when present, nonempty and containing `youtube.com` or `youtu.be`; it is rejected with "URL é obrigatória" exactly when absent or empty |
| Server.CheckUrlAccepts | server.js:14 | for example, a `youtu.be` link and a URL with `youtube.com` only in its query are accepted (the general fact is CheckUrlIff) |
| Server.CheckUrlRejectsOtherHost | server.js:13-14 | other hosts are refused as invalid, and the empty URL as missing |
| Server.CheckUrlIsCaseSensitive | server.js:14 | `YOUTUBE.COM` is refused |
| Server.FormatsCommandReading | server.js:17 | by the reference reader, yt-dlp is asked only to list the URL's formats quietly, unless the URL begins with `-`, when it is read as an option and no URL is left |
| Server.CheckUrlAdmitsOption | server.js:14-17 | the option-like URL `-fyoutube.com` passes the URL check, and the reference reader then finds no URL to fetch |
| Server.ExitFailure | server.js:25-26 | a failed run reports the error stream when there is one, else a message that ends with the exit code (`null` for a signal) |
| Server.GetFormats | server.js:9-62 | the handler answers the selected formats exactly when the URL passes, the run exits 0 and a line is recognised, and otherwise gives the message of the first failure |
| Server.DownloadArgs | server.js:146-173 | the arguments end with the URL; a refusal is "URL é obrigatória" or "Formato é obrigatório para vídeo" |
| Server.PrepareDownload | server.js:146-173 | the handler's pushes build DownloadArgs |
| Server.DownloadFailsIff | server.js:146-147 | a download is refused exactly without a URL, or without a format for anything but `audio_only`; a missing URL is reported first; the URL comes last |
| Server.DownloadArgsFrame | server.js:149-173 | the arguments start with the output template and the three switches and end with the URL; `-x` appears exactly for audio-only and `--force-keyframes-at-cuts` exactly otherwise |
| Server.ReadBase | server.js:149-154 | the reference reader takes the base arguments as the output template and three switches |
| Server.ReadUrlLast | server.js:173 | the reference reader takes the last argument as the URL, or as an option when it starts with `-` |
| Server.ReadAudioTail | server.js:156-162 | by the reference reader, the audio arguments ask for the best audio, extracted, with AAC 192k recoding |
| Server.AudioDownloadReading | server.js:156-162 | by the reference reader, an audio-only download asks yt-dlp for the best audio, extracted and recoded to AAC 192k, with any format id ignored |
| Server.ReadVideoTail | server.js:164-170 | by the reference reader, the video arguments ask for the format plus best audio, merged into MP4 with AAC audio and keyframes at cuts |
| Server.VideoDownloadReading | server.js:149-173 | by the reference reader, a video download asks yt-dlp for that format with the best audio, merged into MP4 with AAC 192k, under downloads/ by title |

## Left out

- Express, CORS, routing, JSON response shaping, `console.error` and `app.listen` are left out: they are framework I/O. The handlers answer with a value: the selected formats, or the message that becomes `details`.
- Spawning yt-dlp, accumulating its output streams and the Promise plumbing are left out. `GetFormats` takes the run's outcome as a parameter: an exit code with both streams, or a spawn error.
- The download run itself (server.js:175-198) is left out: it only forwards yt-dlp's outcome. The model stops at the argument vector.
- What yt-dlp and ffmpeg do with their arguments is not modelled. `CommandLine` is a reference reader for the server's own options, not yt-dlp's option parser: it has no attached values (`-fworst`, `--opt=value`), abbreviations, `--` or errors for unknown options.
- Server.ReadUrlLast, Server.AudioDownloadReading, Server.VideoDownloadReading: hold for the reference reader only. yt-dlp parses an option-like URL as an option, possibly with an attached value, which the reader does not model. A URL that does not start with `-` is a plain argument for both.
- Numbers are exact reals. IEEE-754 rounding in `parseFloat` and in the unit multiplication is not modelled, and neither is `Infinity` for very long digit strings. The same goes for `parseInt` losing precision above 2^53. Selection only compares sizes.
- JsNumbers.ParseFloatPrefix: modelled only on strings of digits and dots, the only strings the size pattern lets through.
- FormatSelector.GroupByResolution: keys that name `Object.prototype` members (a resolution of `constructor` or `__proto__`) are not modelled. There the source would find an inherited value and fail on `push`.
- Server.FormatsCommandReading: stated for URLs that are not one of the five options that take a value. Such a URL never passes the URL check anyway.
- Request fields that are not strings (numbers, arrays) are not modelled. Each field is absent or a string.
- Strings are sequences of Unicode characters, not UTF-16 code units. A character outside the Basic Multilingual Plane counts as one character here and as two in JavaScript. None of the patterns treat such characters specially.
