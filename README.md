# nxshot, modelled in Dafny

nxshot organises Nintendo Switch captures. Each capture file name starts
with the capture time as `YYYYMMDDhhmmss` and carries, from offset 17, a
32-character screenshot id. That id is the upper-case hex of the AES-ECB
encryption of the game's title id.

The program copies every capture whose name holds a valid date-time into
`<root>/<game name>`, where `<root>` is `FILEPATH/Organized` or the
`--output` folder. It names the folder after the game by looking the id up
in a registry (the `idname` dictionary). With `--strip-regions` it drops a
trailing ` (USA)`, ` (EUR JPN)` and the like. A name it cannot read is
reported and skipped. An id the registry lacks goes to `Unknown`.

The registry can be rebuilt from the SwitchBrew title list:
- a key file is read and checked against an MD5 fingerprint;
- then, for each table row, the title id is reversed, zero-padded to one
  AES block and encrypted;
- the game name, with colons replaced and the region appended, is stored
  under the resulting id.

The project:

- `optional.dfy`: the `Option` type.
- `hex.dfy`: `bytes.hex()` and `bytes.fromhex()`, with their round trip.
- `capture.dfy`: reading a stem.
  - Python's clipped slicing.
  - `int()` on digit strings.
  - `datetime`'s range and calendar checks.
  - The 14-digit form of a date-time.
- `lookup.dfy`: `checkID`, with the region-stripping regular expression as
  a recogniser, proved to remove exactly a region suffix.
- `registry.dfy`: `loadKey` and the row loop of `updateGameIDs`.
  - The global `idname` is the field of class `GameIds`.
  - The class's method `UpdateGameIds` loops over the rows.
  - The per-row step is method `StoreRow`.
  - Both are proved against the function `Insert`, whose last-write-wins
    behaviour is a lemma.
- `organizer.dfy`: `pathlib` joining and `checkFolders`.
  - Its loop is the method `CheckFolders`, with the loop body in method
    `OrganizeFile`.
  - Both are proved against the fold `Organize`: the copies the loop makes,
    in order, the success count, and the printed lines.

AES-128/ECB and MD5 are parameters: `aes` maps a key to a one-block cipher,
and `md5Hex` maps bytes to a hex digest. The other inputs are also given as
values:
- the key file's content, or None when the file is missing;
- the scraped table, or None when the wiki cannot be reached;
- the list of capture files;
- the command-line settings.

### Behaviour worth knowing

- The diagnostic for an unreadable name is
  `Invalid filename for media {current}`. `current` counts the files copied
  so far, so it is not the file's index in the list (`Organizer.Step`,
  `Organizer.OrganizeAt`).
- The game id is read from offset 17 of the stem. The console writes
  `YYYYMMDDhhmmss`, two more digits, `-`, then the id
  (`Capture.ConsoleName`). A stem with 17 digits before the `-`, such as
  `20230115101530000-<id>`, is read with id `-<id>`. No id in a rebuilt
  registry starts with `-`, so the capture goes to `Unknown`
  (`Capture.SeventeenDigitName`, `Organizer.SeventeenDigitNameUnknown`).
- `checkID` returns `Unknown` for a missing id. It also returns it for a
  stored name that is itself `Unknown`, and, with stripping, for one like
  `Unknown (USA)` (`Lookup.CheckIdUnknown`).
- A stem of 13 characters is accepted. Python clips the slice `[12:14]`,
  so the seconds have one digit (`Capture.ThirteenCharacterStem`).
- `$` in Python's regular expressions also matches before a final newline.
  So a stored name ending in a newline loses the region suffix before it
  (`Lookup.StripRegion`).
- A stored name that starts with `/` replaces the output root, so such
  captures land outside the organised folder
  (`Organizer.OutputFolderOfAbsoluteName`).

## Model

| member | source | states |
|---|---|---|
| Hex.Encode | nxshot.py:105-109 | two hex digits per byte, upper-case digits when asked for |
| Hex.Decode | nxshot.py:103 | `bytes.fromhex` succeeds exactly on an even number of hex digits, giving half as many bytes |
| Hex.DecodeEncode | nxshot.py:105-109 | decoding the hex form of any bytes, in either case, gives the bytes back |
| Hex.DecodeAppend | nxshot.py:106-107 | the decoding of two hex strings joined is the two decodings joined |
| Hex.DecodeZeros | nxshot.py:106-107 | a run of 2n `0` characters decodes to n zero bytes |
| Capture.DaysInMonth | nxshot.py:145-151 | a month has 28 to 31 days, and 29 exactly for February of a leap year |
| Capture.IsValidDateTime | nxshot.py:145-151 | (definition) the arguments `datetime` accepts: year 1 to 9999, month 1 to 12, a day of that month, hour, minute and second in range |
| Capture.Slice | nxshot.py:136-141 | Python's `s[i:j]`: the exact slice when it fits, the tail from `i` when only `i` fits, and empty past the end |
| Capture.From | nxshot.py:142 | `s[17:]` is the tail, or empty when the stem is shorter |
| Capture.ParseInt | nxshot.py:146-151 | `int()` accepts exactly the non-empty digit strings, and the value fits their width |
| Capture.PadValue | nxshot.py:146-151 | zero-padding the value of a digit string to its width gives the string back |
| Capture.ParseIntPad | nxshot.py:146-151 | a string parses to n exactly when it is n zero-padded to its own width |
| Capture.ReadFields | nxshot.py:136-151 | a read succeeds exactly when all six slices `[0:4]` … `[12:14]` are numbers, and each field is its slice's value; a read stem has at least 13 characters and each field fits its 4 or 2 digits |
| Capture.Classify | nxshot.py:136-160 | an accepted stem yields a valid date-time, has at least 13 characters and its game id is `stem[17:]` |
| Capture.ClassifiedStemSpellsTime | nxshot.py:136-151 | an accepted stem of 14 or more characters begins with the 14-digit form of its date-time |
| Capture.ClassifyFormatted | nxshot.py:136-160 | 14 digits then any text: accepted exactly when the digits are a valid date-time, with id the text after three characters |
| Capture.ConsoleName | nxshot.py:136-151 | a console name `YYYYMMDDhhmmss` + two characters + `-` + id reads as that date-time and that id |
| Capture.SeventeenDigitName | nxshot.py:142 | with three characters before the `-`, the id read keeps the `-` |
| Capture.ThirteenCharacterStem | nxshot.py:136-142 | a 13-character stem is accepted with a one-digit second and an empty id |
| Capture.ShortStemSkipped | nxshot.py:141-160 | a stem under 13 characters is skipped |
| Capture.NonDigitSkipped | nxshot.py:144-160 | a non-digit in the first 14 characters skips the stem |
| Capture.MonthThirteenSkipped | nxshot.py:144-160 | any date-time with month 13 is skipped, whatever follows the 14 digits |
| Capture.ThirtiethOfFebruarySkipped | nxshot.py:144-160 | 30 February is skipped in every year, leap years included |
| Capture.CenturyNotLeapSkipped | nxshot.py:144-160 | 29 February 1900 is skipped |
| Capture.FourHundredLeapAccepted | nxshot.py:144-151 | 29 February 2000 is accepted |
| Capture.YearZeroSkipped | nxshot.py:144-160 | any date-time in year 0 is skipped |
| Lookup.RunBetween | nxshot.py:125 | (definition) the span is a sequence of the tokens `CHN`, `EUR`, `JPN`, `KOR`, `USA` and blanks, read from its last token |
| Lookup.IsRegionRun | nxshot.py:125 | (definition) the whole text is such a run |
| Lookup.RunShift | nxshot.py:125 | a run inside `m` is a run at the same place in `a + m + e`, and the other way round |
| Lookup.RunStart | nxshot.py:125 | the backward scan ends at or before its start point and what it spans is a run of region tokens |
| Lookup.RunStartAfterParen | nxshot.py:125 | a run of region tokens right after `(` is exactly the span the scan finds |
| Lookup.RegionSuffixAt | nxshot.py:125 | (definition) a match of ` \((CHN, EUR, JPN, KOR, USA or blank)*\)$` starting at `k`: ` (`, a run of region tokens, then a final `)` |
| Lookup.StripAtEnd | nxshot.py:125 | the substitution leaves a prefix, and what it removes is a ` (`, region tokens, `)` suffix |
| Lookup.StripAtEndRemovesSuffix | nxshot.py:125 | whenever such a suffix starts at k, the result is the text before k |
| Lookup.StripRegion | nxshot.py:125 | `re.sub` with `$`: a final newline is kept and the suffix before it removed; otherwise the suffix at the end |
| Lookup.StripRegionSuffix | nxshot.py:125 | a name + ` (` + region tokens + `)` loses exactly that suffix |
| Lookup.StripRegionNoSuffix | nxshot.py:125 | a name with no region suffix and no final newline is unchanged |
| Lookup.StripRegionExample | nxshot.py:125 | any name + ` (USA)` becomes the name |
| Lookup.StripRegionsExample | nxshot.py:125 | any name + ` (USA EUR)` becomes the name |
| Lookup.KeepOtherSuffixExample | nxshot.py:125 | `(Demo)` is not a region suffix and stays |
| Lookup.CheckId | nxshot.py:122-128 | a missing id gives `Unknown`; a present one gives the stored name, region-stripped when asked |
| Lookup.CheckIdUnknown | nxshot.py:122-128 | the result is `Unknown` exactly when the id is missing or the (stripped) stored name is `Unknown` |
| Lookup.CheckIdStripsRegion | nxshot.py:123-126 | a stored `Name (REGIONS)` gives `Name` with stripping and the full name without |
| Registry.IsSubstring | nxshot.py:58 | (definition) Python's `needle in haystack` on strings |
| Registry.KeyText | nxshot.py:56 | `keyfile.read(32)` gives the first 32 characters, or the whole of a shorter file |
| Registry.SameLengthSubstring | nxshot.py:58 | a digest as long as the fingerprint occurs in it only by being equal to it |
| Registry.LoadKey | nxshot.py:53-65 | a missing file gives not-found. Otherwise the key loads exactly when the characters read decode as hex and the digest of the result occurs in the fingerprint, and the key is that result; anything else is a mismatch. A loaded key has at most 16 bytes, 16 when 32 characters were read |
| Registry.LoadKeyChecksFingerprint | nxshot.py:56-60 | with a 32-digit digest, a decodable key loads exactly when its digest equals the fingerprint |
| Registry.KeyUsable | nxshot.py:73-75 | (definition) `if not key: return -1`: only a loaded, non-empty key lets the update go on |
| Registry.Reverse | nxshot.py:104 | reversal puts element `n-1-i` at `i` |
| Registry.LJust | nxshot.py:106 | `ljust`: the text, then `fill` up to `width` characters; longer text is unchanged |
| Registry.HexThenZeros | nxshot.py:105-107 | hex digits followed by `0` pairs decode to the bytes followed by zero bytes |
| Registry.PaddedHexDecodes | nxshot.py:105-107 | the `ljust(32, '0')` round trip pads at most 8 bytes with zero bytes up to 16 |
| Registry.InputBlock | nxshot.py:103-107 | the AES input holds the first (up to) 8 title-id bytes reversed, then zeros |
| Registry.ScreenshotId | nxshot.py:103-109 | fails exactly when the title id is not hex. Otherwise it is 32 upper-case hex digits that decode to the encrypted input block |
| Registry.Sanitize | nxshot.py:98-99 | no `:` remains, a name without `:` is unchanged, and each `:` adds one character |
| Registry.SanitizeAppend | nxshot.py:98-99 | sanitising a concatenation sanitises each part |
| Registry.SanitizeChar | nxshot.py:98-99 | a `:` becomes ` -` and any other character stays; with SanitizeAppend this fixes every character |
| Registry.DisplayName | nxshot.py:112 | the stored name ends in ` (` + region + `)` and has no `:` before it |
| Registry.Complete | nxshot.py:91-96 | (definition) a row with all three cells; a missing cell is the `IndexError` the loop skips |
| Registry.Malformed | nxshot.py:103 | (definition) a complete row whose title id `bytes.fromhex` rejects, the error that ends the update |
| Registry.RowKey | nxshot.py:91-109 | a row is stored exactly when its cells are all present and its title id is hex |
| Registry.AddRow | nxshot.py:98-112 | (definition) one row: stored under its id with its display name, or skipped; its effect is stated by AddRowAt |
| Registry.Insert | nxshot.py:90-112 | (definition) the rows inserted in order; its effect is stated by InsertLastWriteWins |
| Registry.AddRowAt | nxshot.py:112 | one row sets the entry for its own id and leaves every other entry as it was |
| Registry.InsertLastWriteWins | nxshot.py:90-112 | after the loop an id holds the name of the last row stored under it; other ids keep their old entries |
| Registry.InsertStep | nxshot.py:90-112 | the rows up to `i` are the rows before `i` followed by row `i` |
| Registry.InsertKeysAreScreenshotIds | nxshot.py:109-112 | every id a rebuilt registry holds is 32 upper-case hex digits |
| Registry.FirstMalformed | nxshot.py:90-103 | the first row whose title id `fromhex` rejects, or the row count; no earlier row is malformed |
| Registry.DataRows | nxshot.py:90 | `gametabler[1:]`: every row but the heading, in order |
| Registry.StoreRow | nxshot.py:91-112 | the loop body: reports a malformed title id exactly when there is one, and otherwise performs the row's insertion |
| Registry.GameIds.constructor | nxshot.py:15 | the registry starts empty |
| Registry.GameIds.UpdateGameIds | nxshot.py:68-118 | an unusable key or an unreachable wiki leaves the registry alone. Otherwise the data rows before the first malformed one are inserted in order, and the status names that row or success |
| Organizer.Parts | nxshot.py:165-167 | every component `pathlib` keeps is non-empty, not `.` and has no `/` |
| Organizer.PartsCons | nxshot.py:165-167 | `a/rest` splits into `a` followed by the components of `rest` |
| Organizer.PartsJoinParts | nxshot.py:165-167 | splitting a `/`-joined list of components gives the list back |
| Organizer.PlainNameParts | nxshot.py:165-167 | a plain name is one component |
| Organizer.Join | nxshot.py:165-167 | (definition) `joinpath`: a name starting with `/` replaces the base, any other adds its components |
| Organizer.OutputFolder | nxshot.py:164-167 | a name not starting with `/` adds its components under `FILEPATH/Organized` or under the output folder |
| Organizer.OutputFolderOfPlainName | nxshot.py:164-167 | a plain game name is the last component of the folder |
| Organizer.OutputFolderOfAbsoluteName | nxshot.py:164-167 | a game name `/a` makes the folder the absolute path `/a`, outside the root |
| Organizer.OutputFolderOfNameWithSlash | nxshot.py:164-167 | a game name `a/b` makes the nested folders `a` then `b` |
| Organizer.Place | nxshot.py:162-171 | (definition) the copy of a classified file: into the output folder of its game's name, landing under its own file name, timed with the capture time |
| Organizer.Decide | nxshot.py:144-171 | (definition) no copy for a stem that does not classify, otherwise the copy Place gives |
| Organizer.DecideParsed | nxshot.py:144-171 | a file whose stem classifies gets the copy Place gives for its capture |
| Organizer.DecideSome | nxshot.py:144-171 | a file is copied exactly when its stem classifies |
| Organizer.DecideCopy | nxshot.py:162-171 | a file whose game name is a plain name is copied to `<root>/<name>/<file name>`, timed with its capture time |
| Organizer.Step | nxshot.py:153-177 | (definition) one pass of the loop: report and skip, or copy, count and report |
| Organizer.Organize | nxshot.py:135-177 | (definition) the loop over the files in order; its properties are OrganizeCounts, OrganizePrefix and OrganizeAt |
| Organizer.Kept | nxshot.py:144-175 | (definition) the number of files that get a copy |
| Organizer.CountParsed | nxshot.py:136-160 | (definition) the number of files whose stem reads as a valid date-time |
| Organizer.KeptCountsParsed | nxshot.py:144-175 | the files that get a copy are counted exactly by the files whose stem classifies |
| Organizer.OrganizeStep | nxshot.py:135-177 | the run over one more file is one more step of the loop |
| Organizer.OrganizeCounts | nxshot.py:131-177 | the count equals the number of copies and of kept files, is at most the file count, and one line is printed per file |
| Organizer.OrganizePrefix | nxshot.py:135-177 | later files only append: the run over a prefix is a prefix of the whole run |
| Organizer.OrganizeAt | nxshot.py:153-177 | file i's line carries the number of copies before it; a kept file's copy follows those copies |
| Organizer.OrganizeFile | nxshot.py:136-177 | the loop body is one step of the run: report and skip, or copy, count and report |
| Organizer.CheckFolders | nxshot.py:131-177 | the loop yields the run over all files: count = copies = kept files = files whose stem classifies <= files, one line per file |
| Organizer.RebuiltRegistryFolders | nxshot.py:112-128 | on a rebuilt registry the folder is the last matching row's stored name, or its sanitised game name when stripping a region-code region; `Unknown` when no row matches |
| Organizer.DashIdNotInRebuilt | nxshot.py:109-112 | no id a rebuilt registry holds starts with `-` |
| Organizer.SeventeenDigitNameUnknown | nxshot.py:122-160 | a stem with 17 digits before the `-` is read, and on a rebuilt registry its folder is `Unknown`, with or without stripping |
| Organizer.SingleEntryLookup | nxshot.py:122-126 | an id stored in the registry resolves to its stored name |
| Organizer.SingleCapturePlacement | nxshot.py:131-177 | one console-named capture of a registered game goes to `<root>/<name>/<file name>`, timed with its capture time, reported as `Organized 1 of 1` |

## Left out

- AES-128/ECB and MD5 are parameters, not implementations. The AES key-length check (`AES.new` refusing a key that is not 16, 24 or 32 bytes) is not modelled.
- The HTTP fetch and the HTML parsing (`urlopen`, BeautifulSoup) are left out. The table arrives as rows of optional cells, None when the fetch fails. A cell whose first content is a tag rather than text is not modelled.
- `MalformedTitleId` stands for a crash. Nothing in `updateGameIDs` catches the `ValueError` of `bytes.fromhex(titleid)` (line 103), so the program ends there: `gameids.json` is not written and no capture is organised. The model reports the row and keeps the entries stored before it, which the crashed process would lose.
- Writing `gameids.json` (lines 114-116) and loading it at start-up (lines 185-191) are left out. The registry is a value, and the status `Updated` stands for the success message.
- File-system effects are described, not performed: `mkdir`, the copy (its content and error cases), and `os.utime`. `CheckFolders` returns the copies it would make, each with its target path and capture time.
- `time.timestamp()` (line 162) is left out. It depends on the local time zone; the copy carries the date-time itself.
- The top-level flow (lines 180-224) is left out: argument parsing, the `--local` layout, the glob patterns that build the file list, and the calls to `updateGameIDs` and `checkFolders`. The file list and the settings are inputs.
- Paths are POSIX only. A `Path` is an absolute flag and its components; Windows drives and `..` are not modelled.
- Printing is modelled only for the two progress lines of `checkFolders`, as `Progress` values. The key-file, fetch and update messages are left out.
- Capture.ParseInt: accepts only ASCII digits. Python's `int()` also accepts surrounding whitespace, a sign, `_` between digits and non-ASCII decimal digits, so a stem such as `+023...` is skipped here but may be read by the program.
- Hex.Decode: does not skip whitespace. Since Python 3.7, `bytes.fromhex` skips any ASCII whitespace between byte pairs, including a final newline. So a title-id cell with such whitespace makes `UpdateGameIds` stop with `MalformedTitleId`, where the program stores the row. A key file with whitespace in its first 32 characters is likewise a mismatch here.
- Registry.LoadKey: reads the first 32 characters of the key file as a string. Decoding errors of the file's text encoding are not modelled.
