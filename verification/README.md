# get_wish_links in Dafny

A model of the core of `get_wish_links`, a command-line tool that finds the
Genshin Impact web cache on disk and prints the wish-history URL stored in it.
Four pieces are modelled and proved:

- **The URL scanner** (`Extract`, internal/extract/extract.go). It scans a
  byte buffer for each literal `https://` and extends the match greedily over
  an allowlist of URL bytes. `IndexHttps` and `Urls` are the source's loops,
  written as methods. They are proved equal to the reference definitions
  `NextHttps`, `MatchEnd` and `Spans`. The lemmas then state what every scan
  promises: each URL starts with the prefix, consists of allowed bytes only
  and is maximal; URLs come in order and do not overlap; every occurrence of
  the prefix lies in exactly one URL; only the secure scheme is recognised.
- **The version resolver** (`Finder`, internal/finder/find.go). `ParseVersion`
  turns a directory name into four non-negative integers, as strconv.Atoi
  reads them. `FindData2FS` keeps the directory entries whose names parse,
  picks one with the greatest version, and reports the outcome of the stat of
  its `data_2` file. `FindData2` first refuses an empty root.
- **The category selector** (`Gacha`, internal/gacha/select.go). It makes one
  pass over the URLs and keeps, for each `gacha_type`, the last URL whose
  `end_id` is `"0"`. URLs without a `gacha_type` are filed under `"unknown"`.
- **The output rules of the command** (`WishLinks`,
  cmd/get_wish_links/main.go). These are:
  - the blank-root check;
  - the substring filter, applied in place like `slices.DeleteFunc`;
  - the order on category keys: integers by value, then other keys as text,
    then `"unknown"`;
  - the choice of the URL under a least key.

Two supporting modules model the parts of Go's standard library that these
rules depend on:

- `Strings`: Split/Join on one separator, Contains, TrimSpace, and byte-wise
  string order.
- `Strconv`: Atoi on a 64-bit platform, and decimal rendering.

In two places the comments and the code disagree, and the model follows the
code:

- The comment at internal/extract/extract.go:17 mentions `http://`, but the
  search at line 48 only matches `https://`. The model recognises only
  `https://`, and `Extract.InsecureSchemeIgnored` proves that a lone
  `http://` URL yields nothing.
- The doc comment of `FindData2` (internal/finder/find.go:15-17) and the
  finder tests put the cache under an extra `Genshin Impact/` directory. The
  code reads `GenshinImpact_Data/webCaches` directly under the root
  (internal/finder/find.go:40, :83). `Finder.DataPath` uses the code's path.

Strings are sequences of characters, each read as a code point. For valid
UTF-8, byte-wise comparison in Go orders strings the same way code points do.
The scanner works on bytes (`Extract.byte`).

## Model

| member | source | states |
|---|---|---|
| Extract.AllowlistExact | internal/extract/extract.go:56-74 | A byte is allowed exactly when it is an ASCII letter, an ASCII digit or one of `-._~:/?#[]@!$&()*+,;=%\|`. Controls below 0x20, DEL, bytes from 0x80 up, space, `"`, `'`, `<`, `>`, backtick and backslash are never allowed. |
| Extract.HttpsBytesAllowed | internal/extract/extract.go:25-32 | Every byte of `https://` is allowed, so a match starting at the prefix is never empty. |
| Extract.NextHttps | internal/extract/extract.go:41-54 | Gives the smallest offset at or after `from` where `https://` occurs in full, or none when there is no such offset. |
| Extract.IndexHttps | internal/extract/extract.go:41-54 | The search loop returns -1 when no `https://` starts at or after `from`. Otherwise it returns the first offset where one does. |
| Extract.MatchEnd | internal/extract/extract.go:25-28 | The greedy extension stops within the buffer, at or after its start, and only at the end of the buffer or at a byte that is not allowed. |
| Extract.MatchEndAllowed | internal/extract/extract.go:25-28 | Every byte the greedy extension passes over is allowed. |
| Extract.MatchEndFrom | internal/extract/extract.go:25-28 | Resuming the extension from any offset inside the run stops at the same place. |
| Extract.MatchEndReaches | internal/extract/extract.go:25-28 | The greedy extension is maximal: it reaches at least as far as any run of allowed bytes from the same start. |
| Extract.PrefixWithinMatch | internal/extract/extract.go:25-32 | A match starting at `https://` is at least 8 bytes long, so the `end == j` retry is never taken. |
| Extract.Spans | internal/extract/extract.go:18-36 | Every captured span starts at or after the scan's start offset, is at least 8 bytes long and lies within the buffer. |
| Extract.SpansMatch | internal/extract/extract.go:20-34 | Every captured span starts with `https://`, holds only allowed bytes, and is maximal: it ends at the end of the buffer or just before a byte that is not allowed. |
| Extract.SpansOrdered | internal/extract/extract.go:35 | The captured spans appear in increasing order and do not overlap, because the scan resumes at the end of each match. |
| Extract.Urls | internal/extract/extract.go:9-39 | The scan loop emits exactly the slices of the buffer that `Spans` captures, in order. Each has length at least 8, starts with `https://` and consists of allowed bytes. |
| Extract.UrlShapes | internal/extract/extract.go:34 | Every emitted slice has length at least 8, begins with `https://` and holds allowed bytes only. |
| Extract.OccurrenceInExactlyOneUrl | internal/extract/extract.go:19-36 | Every occurrence of `https://` in the buffer lies inside exactly one captured URL; none is lost or reported twice. |
| Extract.NoUrlsIffNoHttps | internal/extract/extract.go:19-36 | The scan yields no URL exactly when the buffer holds no `https://`. |
| Extract.NoSchemeLetterNoHttps | internal/extract/extract.go:48 | A buffer without an `s` byte contains no `https://`. |
| Extract.InsecureSchemeIgnored | internal/extract/extract.go:48 | Only the secure scheme is matched: the buffer `http://example.com` yields no URL. |
| Strings.Split | internal/finder/find.go:94 | `strings.Split` on one separator gives at least one part, and no part contains the separator. |
| Strings.JoinSplit | internal/finder/find.go:94 | Joining the parts of a split with the separator gives back the input. |
| Strings.SplitJoin | internal/finder/find.go:94 | Splitting a join of separator-free parts gives back those parts. |
| Strings.TrimSpaceEmpty | cmd/get_wish_links/main.go:50 | `strings.TrimSpace` yields the empty string exactly when every character is white space. |
| Strings.LessTransitive | cmd/get_wish_links/main.go:104 | Byte-wise string order is transitive. |
| Strings.LessTotal | cmd/get_wish_links/main.go:104 | Byte-wise string order relates any two different strings one way or the other. |
| Strconv.Atoi | internal/finder/find.go:103 | A successful `strconv.Atoi` starts with a digit or a sign. Its value lies within the signed 64-bit range, and a leading `-` gives a value of at most 0. |
| Strconv.AtoiDecimal | internal/finder/find.go:103 | Atoi reads back the decimal rendering of every natural up to the 64-bit maximum. |
| Strconv.SignedAndPaddedExamples | internal/finder/find.go:103-104 | Atoi accepts a sign and leading zeros: `+1` and `01` are 1, and `-0` is 0. |
| Finder.ParseVersion | internal/finder/find.go:93-110 | Parsing succeeds exactly when splitting on `.` gives four segments, each non-empty, Atoi-parseable and not negative. On success the four values are those segments' values in order. |
| Finder.ParsedVersionMeaning | internal/finder/find.go:93-110 | A name denotes a version exactly when it has four dot-separated segments, each non-empty, Atoi-parseable and not negative. The version's parts are the segments' values, in order. |
| Finder.ParsedJoin | internal/finder/find.go:93-110 | Four dot-free segments that Atoi reads as the parts of a version parse, once joined with dots, to that version. |
| Finder.ParseVersionName | internal/finder/find.go:93-110 | Round trip: four naturals, rendered in decimal and joined with `.`, parse back to the same four values. |
| Finder.UndottedNamesRejected | internal/finder/find.go:94-97 | `foo`, `latest` and `backup-2024` are not version names. |
| Finder.ThreeSegmentsRejected | internal/finder/find.go:95-97 | `1.2.3` is rejected: the name must have four segments. |
| Finder.EmptySegmentRejected | internal/finder/find.go:100-102 | `1..2.3` is rejected because it has an empty segment. |
| Finder.EquivalentNames | internal/finder/find.go:103-107 | A name with signs and leading zeros, `+1.01.-0.0`, parses to the same version as `1.1.0.0`. |
| Finder.NewerIsLexicographic | internal/finder/find.go:68-80 | The sort comparator is lexicographic order on the four integers. `a` is newer exactly when, at the first differing position, `a`'s number is larger. |
| Finder.NewerTransitive | internal/finder/find.go:68-80 | The comparator is transitive. |
| Finder.NewerTotal | internal/finder/find.go:68-80 | Of two different versions, one is newer. |
| Finder.NumericNotTextual | internal/finder/find.go:68-80 | Components compare as numbers, not text: `9.0.0.0` is newer than `2.44.1.0`, and `10.0.0.0` is newer than `9.0.0.0` even though the text `10.0.0.0` sorts first. |
| Finder.Candidates | internal/finder/find.go:50-62 | Candidates are exactly the directory entries whose names parse, each carrying its parsed version. Other entries are skipped. |
| Finder.Latest | internal/finder/find.go:68-82 | The chosen candidate is one of the candidates, and its version is at least every candidate's version. |
| Finder.FindData2FS | internal/finder/find.go:39-91 | An unreadable listing is an error. No version directory is an error. Otherwise, for some greatest candidate, the result is its `data_2` path when the stat finds the file. A missing file is an error naming that version, and any other stat failure is an error. |
| Finder.FindData2 | internal/finder/find.go:22-30 | An empty root is refused before any lookup. Any other root resolves as `FindData2FS` does. |
| Finder.SuccessIsLatestData2 | internal/finder/find.go:82-90 | A success is the path `GenshinImpact_Data/webCaches/<name>/Cache/Cache_Data/data_2` of a greatest candidate, and that path exists. |
| Finder.NoCandidatesFails | internal/finder/find.go:64-66 | A listing without a directory whose name parses ends in the "no versions" error. |
| Finder.MissingLatestData2Fails | internal/finder/find.go:84-87 | When the greatest versions lack `data_2`, the result is the "data_2 not found" error. There is no fallback to an older version. |
| Gacha.OnePerTypeWithEndIdZero | internal/gacha/select.go:7-25 | The loop, which overwrites map entries, builds exactly the map `Selected` describes. |
| Gacha.CategoryFilter | internal/gacha/select.go:15-21 | A parsed URL is kept exactly when the first `end_id` value is `"0"`. It is filed under its first `gacha_type` value, or under `"unknown"` when that value is absent or empty. The key is never empty. |
| Gacha.PageIrrelevant | internal/gacha/select.go:14-22 | Setting or removing the `page` parameter never changes inclusion or the key. |
| Gacha.SelectedAppend | internal/gacha/select.go:9-23 | Appending a URL that does not pass leaves the map unchanged. Appending one that passes changes only its own key's entry. |
| Gacha.SelectedKeys | internal/gacha/select.go:10-22 | A key is present exactly when some input URL parses and passes with that key. URLs that do not parse contribute nothing. |
| Gacha.SelectedLastWins | internal/gacha/select.go:22 | A key's entry is the last input URL, in input order, that passes with that key. |
| Gacha.SelectedValuesPass | internal/gacha/select.go:9-22 | Every stored URL is an input URL that parses, has `end_id` `"0"`, and is filed under its key. |
| WishLinks.RootIsBlank | cmd/get_wish_links/main.go:50-53 | A root is refused exactly when it is empty or all white space. |
| WishLinks.KeepMembers | cmd/get_wish_links/main.go:75-77 | The filter keeps exactly the URLs that contain the filter string as a substring. |
| WishLinks.KeepConcat | cmd/get_wish_links/main.go:75-77 | The filter preserves relative order: filtering a concatenation gives the concatenation of the filtered parts. |
| WishLinks.DeleteNonMatching | cmd/get_wish_links/main.go:75-77 | The in-place delete leaves the kept URLs at the front of the array in their original order. It clears the rest of the array and returns the new length. |
| WishLinks.KeyOrder | cmd/get_wish_links/main.go:86-105 | The order has four rules. `"unknown"` comes after every other key. Two integer keys are ordered by value. An integer key comes before any other key except `"unknown"`. Two other keys are ordered byte-wise. |
| WishLinks.KeyLessIrreflexive | cmd/get_wish_links/main.go:86-105 | No key is less than itself. |
| WishLinks.KeyLessTransitive | cmd/get_wish_links/main.go:86-105 | The key order is transitive, so a least key is well defined. |
| WishLinks.KeyOrderExample | cmd/get_wish_links/main.go:93-97 | `2` comes before `11` by value, although `11` sorts first as text. `unknown` comes last, and `1` comes before the text key `abc`. |
| WishLinks.LeastKey | cmd/get_wish_links/main.go:82-105 | The chosen key is one of the keys, and no key is less than it. |
| WishLinks.FirstUrl | cmd/get_wish_links/main.go:107 | The printed URL is the entry under a key that no other key is less than. |

## Left out

- Reading input is not modelled: `io.ReadAll` in `UrLs`, opening the file, `bufio`, and the read-error path. `Extract.Urls` takes the buffer as a byte sequence.
- Filesystem calls are parameters. `fs.ReadDir` becomes the listing (or `None` when it fails), and `fs.Stat` becomes a function from path to outcome. All stat errors other than "does not exist" become one opaque error.
- `FindData2`'s `filepath.Join` and `filepath.Abs` are not modelled. `Finder.FindData2` returns the path relative to the root.
- URL parsing (`net/url`'s `Parse` and `Query`) is a parameter: a function from a URL to its query values, or to none when the URL does not parse. Percent-decoding and the handling of malformed pairs are inside it.
- Command-line parsing (kong), logging (slog), `os.Exit`, printing, and the signal handling of internal/utils.go are process glue and concurrency, and are not modelled.
- The pipeline is not composed into one member. Each stage is modelled on its own: the byte-to-string conversion of the scanner's output and the building of the `keys` slice from the map are left out.
- Finder.Latest: stands for the in-place `sort.Slice` followed by `versions[0]`. It promises some greatest candidate. It does not say which of several names with equal versions (such as `1.0.0.0` and `01.0.0.0`) the unstable sort puts first.
- WishLinks.LeastKey: stands for the in-place `sort.Slice` of the keys followed by `keys[0]`. It promises some least key. It does not say which of two keys with equal integer values (such as `1` and `01`) comes first.
- WishLinks.FirstUrl: requires a non-empty selection, because the source panics on `keys[0]` when nothing was selected.
- Strconv.Atoi: models a 64-bit `int`. Platforms with a 32-bit `int` are not modelled.
- Strings.TrimSpace: works on code points. The treatment of invalid UTF-8 is not modelled.
