# treasure-chest, modelled in Dafny

treasure-chest is a PHP cache layer with hierarchical namespaces. A key
such as `user:42:profile` names the namespace paths `user` and `user:42`.
Each path has a version counter kept in the cache itself. The key the
backend finally sees is the paths' versions, then the original key, all
joined by the delimiter, e.g. `3:0:user:42:profile`. Invalidating a path
bumps its counter, so every key below it maps to a new backend key and the
old entries can no longer be reached.

This project models the core of that design:

- `php.dfy` (module `Php`): the PHP values and built-ins the core relies
  on. These are truthiness, `trim`/`rtrim`, `filter_var(..., FILTER_VALIDATE_INT)`,
  the `(int)` cast, `strval`, `strlen` as UTF-8 length, `substr($s, -n)`,
  `explode`/`implode`, and integer addition that overflows to float.
- `faux.dfy` (module `Faux`): the in-memory backend. Pure functions give
  the map each operation leaves, and the class `FauxCache` is proved
  against them.
- `keymapper.dfy` (module `KeyMapping`): the key mapper, as pure functions
  over the index and the backend's map, plus the class `KeyMapper`. Its loop
  in `GetNamespaceKey` is proved against those functions.
- `instance.dfy` (module `Facade`): the facade `Instance`, with its prefix
  rule and its delegation to the mapper and the backend.
- `files.dfy` (module `Files`): the file system both file backends see.
  It maps a path to content and mtime, where the mtime is the entry's expiry.
- `filesystem.dfy` (module `FilesystemCache`): the file backend of
  `src/`. It covers safe file names, the `header|payload` record, the
  `atomicAdjust` counter and glob-based `clear()`.
- `legacy_filesystem.dfy` (module `LegacyFilesystem`): the earlier file
  backend of `lib/`. Its files are named by the SHA-1 alone and carry no header.

The clock (`time()`) is the parameter `now`. `sha1`, `serialize`,
`unserialize` and the decimal text PHP prints for a float are function
parameters; the model does not say what they compute.

The built-ins follow PHP 5, the PHP this code was written for. Where later
versions differ, e.g. the `(int)` cast of numeric strings since PHP 7.1,
the model keeps the PHP 5 reading. One PHP 5 behaviour is not modelled:
`substr` returning false, and the index slot that false shares with the
namespace "0" (see "## Left out").

## Model

| member | source | states |
|---|---|---|
| Php.NatToStringIsCanonical | src/TreasureChest/Cache/Filesystem.php:124 | The decimal text strval writes for a natural number is all digits, without a leading zero unless it is 0, and denotes the number. |
| Php.IntToStringShape | src/TreasureChest/Cache/Filesystem.php:78 | The decimal text of an integer starts with '-' or a digit and ends with a digit, so trim() leaves it alone. |
| Php.IntToStringIsShort | src/TreasureChest/Cache/Filesystem.php:65 | A 64-bit integer prints in at most 20 characters, so a counter record fits the 1000-byte read. |
| Php.TrimLeftStrips | src/TreasureChest/Cache/Filesystem.php:65 | trim() at the front removes exactly a prefix of whitespace/NUL characters and stops at the first other one. |
| Php.TrimRightStrips | src/TreasureChest/Cache/Filesystem.php:65 | trim() at the back removes exactly a suffix of whitespace/NUL characters and stops at the last other one. |
| Php.RTrim | src/TreasureChest/Cache/Filesystem.php:25 | rtrim($dir, '/') keeps a prefix of the input that does not end in '/', and removes only '/' characters. |
| Php.TrimKeeps | src/TreasureChest/Cache/Filesystem.php:65 | trim() leaves a string unchanged when it neither starts nor ends with a trimmed character. |
| Php.ValidateIntOfDigits | src/TreasureChest/Cache/Filesystem.php:72 | filter_var's integer check reads a digit string, and the same string after '-', as an unsigned or negated number. |
| Php.ValidateIntRejectsNul | src/TreasureChest/Cache/Filesystem.php:72 | filter_var's integer check refuses any text with a NUL in it: it strips only space, tab, CR, VT and LF, and NUL is neither sign nor digit. |
| Php.ValidateIntOfIntToString | src/TreasureChest/Cache/Filesystem.php:72 | filter_var's integer check reads back every 64-bit integer strval wrote: the two round-trip. |
| Php.LeadingDigits | src/TreasureChest/Cache/Faux.php:76 | The digits the (int) cast reads are the longest all-digit prefix of the string. |
| Php.ByteLength | lib/TreasureChest/KeyMapper.php:54 | strlen is at least the character count, and is 1 exactly for a single ASCII character. |
| Php.LastChars | src/TreasureChest/Cache/Filesystem.php:44 | substr($s, -8) is the last eight characters, or the whole string when it is shorter. |
| Php.Explode | lib/TreasureChest/KeyMapper.php:45 | explode yields one more part than there are delimiters, and no part contains the delimiter. |
| Php.ImplodeExplode | lib/TreasureChest/KeyMapper.php:45-47 | implode undoes explode: the parts rebuild the key. |
| Php.ImplodeSnoc | lib/TreasureChest/KeyMapper.php:77 | Appending one more part to an implode appends the delimiter and the part. |
| Php.CountIsZero | lib/TreasureChest/KeyMapper.php:39 | A string has no delimiter exactly when the count of delimiters is zero. |
| Php.SplitAtFirstSplits | src/TreasureChest/Cache/Filesystem.php:70 | explode($d, $s, 2) splits at the first delimiter: the header has none, the rest is missing exactly when s has none, and header, delimiter and rest rebuild s. |
| Php.SplitAtFirstOf | src/TreasureChest/Cache/Filesystem.php:183 | A header without '\|' followed by '\|' and any payload splits back into that header and payload. |
| Faux.StoreThenFetch | src/TreasureChest/Cache/Faux.php:27-34 | What store() writes, fetch() returns at the same instant, for ttl 0 (never expires) and any positive ttl. |
| Faux.AddRefusesExpiredKey | src/TreasureChest/Cache/Faux.php:15-22 | add() is refused for a key that is held but expired, although fetch() and exists() report it absent. |
| Faux.IncOfStoredStruct | src/TreasureChest/Cache/Faux.php:74-79 | inc on a stored array counts from its (int) cast: the step alone for the empty array, one more than the step for any other array or object. |
| Faux.IncThenDecRestores | src/TreasureChest/Cache/Faux.php:74-93 | inc by a step followed by dec by the same step restores a live integer entry exactly. |
| Faux.IncOfAbsentKeyIsInvisible | src/TreasureChest/Cache/Faux.php:74-81 | inc on a key that is not held returns the step but creates a slot without expiry, which exists() and fetch() never see. |
| Faux.AdjustKeepsExpiry | src/TreasureChest/Cache/Faux.php:74-93 | inc and dec change only the value half of a slot: whether the key is live at any time is unchanged. |
| Faux.Stored | src/TreasureChest/Cache/Faux.php:27-34 | store() sets the key's value, leaves every other key alone, and makes the key live now exactly for ttl 0 or ttl > 0. |
| Faux.Adjusted | src/TreasureChest/Cache/Faux.php:74-93 | inc/dec writes (int)fetch + delta into the value half and keeps the key's expiry (none for a new key). |
| Faux.Deleted | src/TreasureChest/Cache/Faux.php:98-107 | delete() removes the key only when it is live and touches no other key. |
| Faux.FauxCache.constructor | src/TreasureChest/Cache/Faux.php:10 | A new in-memory backend holds no entries. |
| Faux.FauxCache.Add | src/TreasureChest/Cache/Faux.php:15-22 | Succeeds exactly when the key is not held; then the map is as store() leaves it, otherwise unchanged. |
| Faux.FauxCache.Store | src/TreasureChest/Cache/Faux.php:27-34 | Always true; the map becomes the stored map. |
| Faux.FauxCache.Replace | src/TreasureChest/Cache/Faux.php:39-46 | Succeeds exactly when the key is live; then stores, otherwise leaves the map. |
| Faux.FauxCache.Exists | src/TreasureChest/Cache/Faux.php:51-54 | True exactly when the key is held with an expiry strictly after now. |
| Faux.FauxCache.Fetch | src/TreasureChest/Cache/Faux.php:60-68 | The stored value of a live key, with the caller's success flag left as it was; false, with the flag set to false, for a missing or expired key. |
| Faux.FauxCache.Inc | src/TreasureChest/Cache/Faux.php:74-81 | Returns (int)fetch + step with success true, and the map is the adjusted map. |
| Faux.FauxCache.Dec | src/TreasureChest/Cache/Faux.php:86-93 | Returns (int)fetch - step with success true, and the map is the map adjusted by -step. |
| Faux.FauxCache.AdjustBy | src/TreasureChest/Cache/Faux.php:76-80 | The shared body of inc and dec: the returned value and the new map are those of the adjustment. |
| Faux.FauxCache.Delete | src/TreasureChest/Cache/Faux.php:98-107 | True exactly when the key was live; the map loses the key only then. |
| Faux.FauxCache.Clear | src/TreasureChest/Cache/Faux.php:109-114 | Always true and the map is empty. |
| KeyMapping.VersionKeyInjective | lib/TreasureChest/KeyMapper.php:118-122 | Distinct namespace paths have distinct version-counter keys. |
| KeyMapping.FlatKeyPassesThrough | lib/TreasureChest/KeyMapper.php:39-41 | A key without the delimiter is returned unchanged and neither the index nor the backend changes. |
| KeyMapping.SegmentsRebuildKey | lib/TreasureChest/KeyMapper.php:45-47 | A key with n delimiters has n namespace segments, and the segments, the delimiter and the leaf rebuild the key. |
| KeyMapping.MappedKeyShape | lib/TreasureChest/KeyMapper.php:68-87 | With n >= 1 delimiters the mapped key is n versions joined by the delimiter, the delimiter, then the original key verbatim. |
| KeyMapping.PathsDistinct | lib/TreasureChest/KeyMapper.php:76-79 | The namespace paths of a key are pairwise distinct, each longer than the one before. |
| KeyMapping.VersionsOfIndexFrame | lib/TreasureChest/KeyMapper.php:89-110 | Resolving a key's paths changes the index at those paths only. |
| KeyMapping.VersionsOfDataFrame | lib/TreasureChest/KeyMapper.php:97-104 | Resolving a key's paths changes the backend only at their version-counter keys. |
| KeyMapping.VersionsAreIndexed | lib/TreasureChest/KeyMapper.php:104-109 | After resolution, path i is in the index with exactly the i-th version. |
| KeyMapping.MemoisedPathsResolveFromIndex | lib/TreasureChest/KeyMapper.php:92-94 | When every path is memoised (non-null), resolution reads the index and touches nothing. |
| KeyMapping.FreshPathsResolveToCounters | lib/TreasureChest/KeyMapper.php:97-107 | With no path memoised, version i is the backend's counter of path i, or 0 when fetch misses. |
| KeyMapping.MappedVersionsAreIndexed | lib/TreasureChest/KeyMapper.php:36-87 | After parse, the index holds each path of the key with the version used in the mapped key. |
| KeyMapping.MemoisedSurvives | lib/TreasureChest/KeyMapper.php:89-110 | Resolving any paths keeps every memoised (non-null) index entry: getVersionNumber only writes paths the index does not yet answer. |
| KeyMapping.ParseKeepsMemoised | lib/TreasureChest/KeyMapper.php:36-110 | Parsing any key, flat or namespaced, keeps every memoised index entry. |
| KeyMapping.ParseAllKeepsMemoised | lib/TreasureChest/KeyMapper.php:36-110 | Any run of parses keeps every memoised index entry. |
| KeyMapping.ParseIsStable | lib/TreasureChest/KeyMapper.php:89-94 | Once a parse has recorded non-null versions for a key's paths, parsing the key from any state whose index still holds them at those paths gives the same mapped key and touches nothing, whatever the backend holds and whenever it is asked. |
| KeyMapping.StableAcrossParses | lib/TreasureChest/KeyMapper.php:89-139 | Until invalidate() wipes the index: parse a key, then any other keys at any times, then the key again, and it maps to the same key as the first time, touching nothing. |
| KeyMapping.FreshParseReadsCounters | lib/TreasureChest/KeyMapper.php:36-110 | With an empty index, the versions of a key are the backend's counters of its paths. |
| KeyMapping.InvalidateTouchesOnlyItsCounter | lib/TreasureChest/KeyMapper.php:124-142 | invalidate fails and changes nothing for "" and "0"; otherwise it succeeds, empties the index and changes no backend key but the namespace's counter. |
| KeyMapping.InvalidateBumpsCounter | lib/TreasureChest/KeyMapper.php:130-136 | After invalidate, the namespace's counter reads as the old counter (cast to int) plus one; an absent counter becomes 1. |
| KeyMapping.InvalidationChangesOnlyItsSegment | lib/TreasureChest/KeyMapper.php:124-142 | Compared with a fresh parse before, a fresh parse after invalidate(ns) has ns's version one higher and every other version unchanged. |
| KeyMapping.VersionsOfExtend | lib/TreasureChest/KeyMapper.php:76-79 | One more loop iteration resolves one more path with one more getVersionNumber call. |
| KeyMapping.ComponentIsPath | lib/TreasureChest/KeyMapper.php:77-78 | The loop's accumulated component, less its leading delimiter, is the next namespace path. |
| KeyMapping.KeyMapper.SetDelimiter | lib/TreasureChest/KeyMapper.php:52-59 | Accepts exactly a one-byte delimiter (false stands for the exception) and otherwise keeps the old one. |
| KeyMapping.KeyMapper.Parse | lib/TreasureChest/KeyMapper.php:36-50 | Returns the mapped key of the key and leaves the index and backend as the parse function says. |
| KeyMapping.LoopResolvesAll | lib/TreasureChest/KeyMapper.php:80-83 | Once every path is resolved, the versions joined by the delimiter, the namespaces and the leaf make up the specified mapped key. |
| KeyMapping.KeyMapper.GetNamespaceKey | lib/TreasureChest/KeyMapper.php:68-87 | The loop over the namespaces computes exactly the specified mapped key, index and backend. |
| KeyMapping.KeyMapper.GetVersionNumber | lib/TreasureChest/KeyMapper.php:89-110 | Returns the memoised version, else the fetched counter, else 0 after add(counter, 0); the index records it. |
| KeyMapping.KeyMapper.Invalidate | lib/TreasureChest/KeyMapper.php:124-142 | Result and new state are those of the invalidate function. |
| KeyMapping.NewKeyMapper | lib/TreasureChest/KeyMapper.php:30-34 | A mapper is built exactly when the delimiter is one byte, with an empty index. |
| KeyMapping.KeyMapper.constructor | lib/TreasureChest/KeyMapper.php:30-34 | Given a one-byte delimiter (NewKeyMapper checks it), the mapper keeps the cache and the delimiter and starts with an empty index. |
| Facade.PrefixRule | lib/TreasureChest/Instance.php:211-217 | The caller's key ends the rewritten key; "" and "0" leave it as it is; any other prefix is put in front with the delimiter. |
| Facade.ExplodeAfterSegment | lib/TreasureChest/Instance.php:216 | A segment without the delimiter put in front of a key becomes the key's first exploded part. |
| Facade.PrefixIsOutermostNamespace | lib/TreasureChest/Instance.php:215-220 | A truthy prefix without the delimiter is the outermost namespace path of every key the facade maps. |
| Facade.PrefixedEmptyNamespaceIsInvalidated | lib/TreasureChest/Instance.php:190-197 | With a truthy prefix even invalidate("") succeeds, since the mapper sees prefix and delimiter. |
| Facade.Instance.constructor | lib/TreasureChest/Instance.php:26-45 | A new facade has delimiter ':' and prefix '', keeps the cache, and builds a fresh mapper over that cache with delimiter ':' and an empty index. |
| Facade.Instance.SetPrefix | lib/TreasureChest/Instance.php:52-55 | The prefix becomes the argument. |
| Facade.Instance.SetDelimiter | lib/TreasureChest/Instance.php:62-66 | The facade keeps the new delimiter even when the mapper rejects it; the mapper's changes only when it is one byte. |
| Facade.Instance.SetMapper | lib/TreasureChest/Instance.php:73-77 | The new mapper is installed and receives the facade's delimiter. |
| Facade.Instance.MapKey | lib/TreasureChest/Instance.php:211-221 | The key is prefixed by the prefix rule, then parsed; the mapper's state is the parse's. |
| Facade.Instance.Add | lib/TreasureChest/Instance.php:87-90 | The backend's add() runs on the mapped key, on the backend as parse left it. |
| Facade.Instance.Store | lib/TreasureChest/Instance.php:101-104 | The backend's store() runs on the mapped key. |
| Facade.Instance.Replace | lib/TreasureChest/Instance.php:114-117 | The backend's replace() runs on the mapped key. |
| Facade.Instance.Exists | lib/TreasureChest/Instance.php:124-127 | The answer is the backend's exists() for the mapped key. |
| Facade.Instance.Fetch | lib/TreasureChest/Instance.php:136-139 | The result is the backend's fetch() for the mapped key. |
| Facade.Instance.Inc | lib/TreasureChest/Instance.php:149-152 | The backend's inc() runs on the mapped key and its value is returned. |
| Facade.Instance.Dec | lib/TreasureChest/Instance.php:162-165 | The backend's dec() runs on the mapped key and its value is returned. |
| Facade.Instance.Delete | lib/TreasureChest/Instance.php:172-175 | The backend's delete() runs on the mapped key. |
| Facade.Instance.Clear | lib/TreasureChest/Instance.php:180-183 | clear() passes through without any key rewriting: the backend is emptied. |
| Facade.Instance.Invalidate | lib/TreasureChest/Instance.php:190-197 | invalidate applies the prefix rule and returns the mapper's answer. |
| Files.Directory | src/TreasureChest/Cache/Filesystem.php:25 | The directory ends in exactly one '/', and agrees with the argument up to its trailing slashes. |
| Files.DirectoryIsIdempotent | src/TreasureChest/Cache/Filesystem.php:24-25 | Normalising a normalised directory changes nothing. |
| Files.TrailingSlashesDoNotMatter | src/TreasureChest/Cache/Filesystem.php:24-25 | Directories that differ only in trailing slashes are the same directory. |
| Files.NulPad | src/TreasureChest/Cache/Filesystem.php:77-78 | The gap a write past the end of a truncated file leaves is that many NUL characters. |
| Files.ReadWindow | src/TreasureChest/Cache/Filesystem.php:65 | fread($fp, 1000) is the first min(length, 1000) characters of the content. |
| Files.TrimNulPrefix | src/TreasureChest/Cache/Filesystem.php:65 | trim() removes NUL padding in front of text that neither starts nor ends with a trimmed character. |
| Files.TrimOfNulPad | lib/TreasureChest/Cache/Filesystem.php:48-51 | trim() leaves nothing of a run of NULs, so such a read counts as empty. |
| Files.Deleted | src/TreasureChest/Cache/Filesystem.php:227-230 | unlink reports whether the file was there, expired or not, removes it and keeps every other file. |
| FilesystemCache.SafeNameKeepsAllowed | src/TreasureChest/Cache/Filesystem.php:42 | The safe name has the key's length, keeps each allowed character in place and writes '_' for every other one. |
| FilesystemCache.SafeNameFixes | src/TreasureChest/Cache/Filesystem.php:42 | A key is its own safe name exactly when it holds only allowed characters and '_'. |
| FilesystemCache.SafeNameIsIdempotent | src/TreasureChest/Cache/Filesystem.php:42 | Sanitising twice is sanitising once. |
| FilesystemCache.PathsCollideExactly | src/TreasureChest/Cache/Filesystem.php:40-45 | Two keys share a file exactly when their safe names agree and their digests end in the same eight characters. |
| FilesystemCache.DecodeEncode | src/TreasureChest/Cache/Filesystem.php:117-124 | The record round-trips: fetch gives back a string as itself, an array or object as unserialize(serialize(v)), anything else as its strval text. |
| FilesystemCache.Stored | src/TreasureChest/Cache/Filesystem.php:113-134 | store() writes the encoded record, keeps every other file, and the entry is live now exactly for ttl 0 or ttl > 0. |
| FilesystemCache.StoreThenFetch | src/TreasureChest/Cache/Filesystem.php:113-191 | What store() writes, fetch() returns at once, through the record's round trip. |
| FilesystemCache.IntegersComeBackAsText | src/TreasureChest/Cache/Filesystem.php:124 | A stored integer is fetched back as its decimal string. |
| FilesystemCache.Cleared | src/TreasureChest/Cache/Filesystem.php:237-242 | clear() removes exactly the files glob matches and keeps the others unchanged. |
| FilesystemCache.ClearRemovesEntry | src/TreasureChest/Cache/Filesystem.php:237-242 | Every entry the backend writes with a key of allowed characters is removed by clear(). |
| FilesystemCache.ClearSparesDotKeys | src/TreasureChest/Cache/Filesystem.php:239 | With an empty prefix, the entry of a key starting with '.' survives clear(). |
| FilesystemCache.ParseCounterOf | src/TreasureChest/Cache/Filesystem.php:70-75 | A record header\|n parses back to its header and n + step. |
| FilesystemCache.Rewritten | src/TreasureChest/Cache/Filesystem.php:74-84 | The counter's write-back changes only the counted file, keeps its liveness, and changes nothing when parsing failed. |
| FilesystemCache.Adjusted | src/TreasureChest/Cache/Filesystem.php:56-86 | atomicAdjust (corrected) fails on a missing file, changes only that file and keeps its expiry; the text after '\|' is read by filter_var's rules, so NUL there fails (NulInNumberNoCount). |
| FilesystemCache.AdjustStepOfCounter | src/TreasureChest/Cache/Filesystem.php:65-75 | A counter record that fits the read parses back to its header and number plus step. |
| FilesystemCache.AdjustedOfParsed | src/TreasureChest/Cache/Filesystem.php:74-78 | Once parsed, the file's content becomes header\|sum and nothing else changes. |
| FilesystemCache.AdjustedCounter | src/TreasureChest/Cache/Filesystem.php:56-86 | Adjusting a record header\|n by a step writes header\|n+step and keeps the expiry. |
| FilesystemCache.IncThenDecRestores | src/TreasureChest/Cache/Filesystem.php:202-218 | inc by a step and dec by the same step return n + step, then n, and restore the file. |
| FilesystemCache.AdjustedBack | src/TreasureChest/Cache/Filesystem.php:215-218 | Adjusting a rewritten record back to n restores the original file. |
| FilesystemCache.IncOfStoredInt | src/TreasureChest/Cache/Filesystem.php:202-205 | inc on a stored integer adds to the number store() wrote and keeps the 0 header. |
| FilesystemCache.BlankFileCountsFromZero | src/TreasureChest/Cache/Filesystem.php:66-68 | An empty or blank file counts as 0\|0: the first inc returns the step and writes 0\|step. |
| FilesystemCache.NoSeparatorNoCount | src/TreasureChest/Cache/Filesystem.php:70-74 | Non-blank content without '\|' is no counter: false, and nothing is written. |
| FilesystemCache.NulInNumberNoCount | src/TreasureChest/Cache/Filesystem.php:65-74 | A record h\|rest that fits the 1000-character read, neither of whose ends is a trim character, with a NUL anywhere in rest but at its end (e.g. 0\|, NUL, 5), is no counter: trim() only strips the record's ends, filter_var refuses the NUL, so the result is false and nothing is written. |
| FilesystemCache.AdjustedAsWritten | src/TreasureChest/Cache/Filesystem.php:56-86 | atomicAdjust as written returns what the corrected one returns, so it fails on the same records (NUL after '\|' among them), and leaves the disk alone on failure. |
| FilesystemCache.AdjustStepIgnoresPadding | src/TreasureChest/Cache/Filesystem.php:65 | While the file fits the read, NUL padding is trimmed away and does not change the count. |
| FilesystemCache.AsWrittenStep | src/TreasureChest/Cache/Filesystem.php:65-78 | One adjustment as written of a padded record that fits the read counts right and grows the padding by the record's length. |
| FilesystemCache.OneRoundAsWritten | src/TreasureChest/Cache/Filesystem.php:65-78 | One inc by one then dec by one as written of a padded record h\|0 that fits the read puts twice the record's length in NULs in front of it and leaves the record itself as it was. |
| FilesystemCache.RoundsAsWrittenPad | src/TreasureChest/Cache/Filesystem.php:65-78 | j rounds of inc and dec as written of h\|0 leave 2·(\|h\|+2)·j NULs in front of the unchanged record, as long as it still fits the read (six NULs a round for the header 0). |
| FilesystemCache.JammedRecordIsRejected | src/TreasureChest/Cache/Filesystem.php:65-74 | 999 NULs then a record with a one-character header is no counter: the 1000-byte read ends at the header, which has no '\|'. |
| FilesystemCache.AsWrittenCounterJams | src/TreasureChest/Cache/Filesystem.php:65-78 | From h\|0 with a one-character header h (0\|0 among them), 166 rounds and one inc as written leave 999 NULs then h\|1, and every later inc or dec fails and leaves the disk alone. |
| FilesystemCache.LastIncJams | src/TreasureChest/Cache/Filesystem.php:65-78 | An inc as written of 996 NULs then h\|0 writes 999 NULs then h\|1, on which every inc or dec fails and leaves the disk alone. |
| FilesystemCache.CounterKeepsCounting | src/TreasureChest/Cache/Filesystem.php:56-86 | The corrected counter from 0\|0 writes 0\|1 and keeps counting. |
| FilesystemCache.AsWrittenAdjustExpiresEntry | src/TreasureChest/Cache/Filesystem.php:77-78 | The as-written write stamps the mtime, so a counted entry is no longer live now or later; the corrected one keeps its liveness. |
| FilesystemCache.FilesystemBackend.constructor | src/TreasureChest/Cache/Filesystem.php:22-31 | The directory is normalised to one trailing slash. |
| FilesystemCache.FilesystemBackend.Add | src/TreasureChest/Cache/Filesystem.php:96-103 | Refused when the file exists, expired or not; otherwise stores. |
| FilesystemCache.FilesystemBackend.Store | src/TreasureChest/Cache/Filesystem.php:113-134 | Always true; the disk is the stored disk. |
| FilesystemCache.FilesystemBackend.Replace | src/TreasureChest/Cache/Filesystem.php:144-151 | Stores exactly when the entry is live. |
| FilesystemCache.FilesystemBackend.Exists | src/TreasureChest/Cache/Filesystem.php:159-164 | The file exists and its mtime lies strictly after now. |
| FilesystemCache.FilesystemBackend.Fetch | src/TreasureChest/Cache/Filesystem.php:174-191 | The decoded record of a live file, with the caller's success flag left as it was; false, with the flag set to false, otherwise. |
| FilesystemCache.FilesystemBackend.AtomicAdjust | src/TreasureChest/Cache/Filesystem.php:56-86 | success stays false; result and disk are the corrected adjustment's. |
| FilesystemCache.FilesystemBackend.AtomicAdjustAsWritten | src/TreasureChest/Cache/Filesystem.php:56-86 | The method as the source writes it: success stays false; the result is the counted sum or false, and the file becomes NUL padding the length of the read, then the record, with mtime now (AdjustedAsWritten). |
| FilesystemCache.FilesystemBackend.Inc | src/TreasureChest/Cache/Filesystem.php:202-205 | atomicAdjust by the step on the key's file. |
| FilesystemCache.FilesystemBackend.Dec | src/TreasureChest/Cache/Filesystem.php:215-218 | atomicAdjust by minus the step on the key's file. |
| FilesystemCache.FilesystemBackend.Delete | src/TreasureChest/Cache/Filesystem.php:227-230 | unlink of the key's file: true exactly when it was there. |
| FilesystemCache.FilesystemBackend.Clear | src/TreasureChest/Cache/Filesystem.php:237-242 | Removes exactly the globbed files; always true. |
| LegacyFilesystem.PathsCollideIffDigestsDo | lib/TreasureChest/Cache/Filesystem.php:34-37 | Two keys share a file exactly when their SHA-1 digests agree. |
| LegacyFilesystem.StoredAsWritten | lib/TreasureChest/Cache/Filesystem.php:96-106 | store() as written fails exactly on an empty payload, yet writes the file either way, and keeps every other file. |
| LegacyFilesystem.Stored | lib/TreasureChest/Cache/Filesystem.php:96-106 | store() (corrected, ttl 0 never expires): the same success rule and file contents. |
| LegacyFilesystem.Added | lib/TreasureChest/Cache/Filesystem.php:78-85 | add() is refused, changing nothing, when the file exists; otherwise it is store(). |
| LegacyFilesystem.StoreThenFetch | lib/TreasureChest/Cache/Filesystem.php:96-139 | What store() writes, fetch() returns from now until the expiry and not after; for ttl 0 at every later time. |
| LegacyFilesystem.EmptyStoreLeavesFile | lib/TreasureChest/Cache/Filesystem.php:99-103 | A store() of an empty payload fails but leaves an empty file, which makes every later add() fail. |
| LegacyFilesystem.ZeroTtlExpiresAsWritten | lib/TreasureChest/Cache/Filesystem.php:105 | With ttl 0 the entry as written cannot be fetched a second later; the corrected one can. |
| LegacyFilesystem.Adjusted | lib/TreasureChest/Cache/Filesystem.php:39-67 | atomicAdjust (corrected) fails exactly on a missing file or a non-integer read, changes only that file and keeps its expiry. |
| LegacyFilesystem.ReadCountOf | lib/TreasureChest/Cache/Filesystem.php:48-53 | A decimal number in a file is read back as itself. |
| LegacyFilesystem.AdjustedNumber | lib/TreasureChest/Cache/Filesystem.php:53-59 | Adjusting a file holding n writes n + step and keeps the expiry. |
| LegacyFilesystem.IncThenDecRestores | lib/TreasureChest/Cache/Filesystem.php:151-168 | inc by a step and dec by the same step return n + step, then n, and restore the file. |
| LegacyFilesystem.AdjustedBack | lib/TreasureChest/Cache/Filesystem.php:165-168 | Adjusting a rewritten number back to n restores the original file. |
| LegacyFilesystem.BlankFileCountsFromZero | lib/TreasureChest/Cache/Filesystem.php:49-51 | An empty or blank file counts as 0: the first inc returns and writes the step. |
| LegacyFilesystem.CounterKeepsCounting | lib/TreasureChest/Cache/Filesystem.php:39-67 | Two corrected adjustments add up. |
| LegacyFilesystem.AdjustedAsWritten | lib/TreasureChest/Cache/Filesystem.php:39-67 | atomicAdjust as written returns what the corrected one returns, and leaves the disk alone on failure. |
| LegacyFilesystem.AsWrittenAdjustExpiresEntry | lib/TreasureChest/Cache/Filesystem.php:58-59 | The as-written write stamps the mtime: an entry stored never to expire cannot be fetched a second after it was counted; the corrected one can. |
| LegacyFilesystem.AsWrittenStep | lib/TreasureChest/Cache/Filesystem.php:48-59 | One adjustment as written of a padded number that fits the read counts right and grows the padding by the number's length. |
| LegacyFilesystem.RoundsAsWrittenPad | lib/TreasureChest/Cache/Filesystem.php:48-59 | Each round of inc and dec as written adds two NULs in front of 0. |
| LegacyFilesystem.PaddedPastWindowReadsZero | lib/TreasureChest/Cache/Filesystem.php:48-51 | Once the first 1000 characters are NULs, the count reads as 0. |
| LegacyFilesystem.AsWrittenCounterForgets | lib/TreasureChest/Cache/Filesystem.php:48-59 | From 0, 500 rounds as written leave 1000 NULs then 0; from then on every inc returns only its own step. |
| LegacyFilesystem.LegacyBackend.constructor | lib/TreasureChest/Cache/Filesystem.php:18-25 | The directory is normalised to one trailing slash. |
| LegacyFilesystem.LegacyBackend.Add | lib/TreasureChest/Cache/Filesystem.php:78-85 | Refused when the file exists; otherwise stores. |
| LegacyFilesystem.LegacyBackend.Store | lib/TreasureChest/Cache/Filesystem.php:96-106 | file_put_contents then touch: the disk and result are the (corrected) store's. |
| LegacyFilesystem.LegacyBackend.StoreAsWritten | lib/TreasureChest/Cache/Filesystem.php:96-106 | The method as the source writes it: false and an unstamped file on an empty payload, otherwise true with mtime now + ttl (StoredAsWritten). |
| LegacyFilesystem.LegacyBackend.Exists | lib/TreasureChest/Cache/Filesystem.php:115-118 | The file exists, expired or not. |
| LegacyFilesystem.LegacyBackend.Fetch | lib/TreasureChest/Cache/Filesystem.php:129-139 | The content of a file whose mtime is not before now, with the caller's success flag left as it was; false, with the flag set to false, otherwise. |
| LegacyFilesystem.LegacyBackend.AtomicAdjust | lib/TreasureChest/Cache/Filesystem.php:39-67 | success stays false; result and disk are the corrected adjustment's. |
| LegacyFilesystem.LegacyBackend.AtomicAdjustAsWritten | lib/TreasureChest/Cache/Filesystem.php:39-67 | The method as the source writes it: success stays false; the result is the counted sum or false, and the file becomes NUL padding the length of the read, then the number, with mtime now (AdjustedAsWritten). |
| LegacyFilesystem.LegacyBackend.Inc | lib/TreasureChest/Cache/Filesystem.php:151-154 | atomicAdjust by the step on the key's file. |
| LegacyFilesystem.LegacyBackend.Dec | lib/TreasureChest/Cache/Filesystem.php:165-168 | atomicAdjust by minus the step on the key's file. |
| LegacyFilesystem.LegacyBackend.Delete | lib/TreasureChest/Cache/Filesystem.php:178-181 | unlink of the key's file: true exactly when it was there. |

## Left out

- I/O and the environment:
  - The clock is the parameter `now`.
  - `sha1`, `serialize` and `unserialize` are uninterpreted function parameters.
  - The text PHP prints for a float is the parameter `floatText`.
  - The text `file_put_contents` writes for an array or object, in the `lib/` backend, is the parameter `structText`.
- Locking: `flock` is modelled as making `atomicAdjust` one atomic step. Concurrent callers are not modelled.
- A failing `fopen`/`flock` (e.g. a missing file) is modelled as `atomicAdjust` returning false. A failing `file_put_contents` or `touch` is not modelled.
- The constructors' `is_writable` check and its exception are not modelled; the directory is taken to be writable.
- PHP's stat cache, which can make `filemtime` stale within one request, is not modelled.
- Files are strings of characters: `fread($fp, 1000)` reads 1000 characters, not bytes.
- Faux.Adjusted: `(int)fetch($key) + $step` does not model PHP's overflow to float; the in-memory backend's values are unbounded. The file backends do model it (`Php.AddInts`).
- FilesystemCache.Decode: `$header == 1` is modelled as the header being exactly "1". Other spellings PHP compares equal to 1 (e.g. "01") are never written by store().
- FilesystemCache.Cleared: glob metacharacters (`*`, `?`, `[`) inside the directory or prefix are taken literally.
- The facade and the mapper are modelled over the in-memory backend. The file backends are modelled on their own, not under the mapper.
- Facade.Instance.Fetch: the by-reference `$success` flag is lost in `func_get_args` and is not modelled. The same holds for `inc`/`dec`.
- The facade's error for an unknown operation name cannot arise, because every method is a fixed member.
- KeyMapping.KeyMapper.SetDelimiter: the index is not cleared when the delimiter changes, because the code does not clear it.
- KeyMapping.Invalidated: a missing counter is set with `store()`, not `add()`, as `KeyMapper.php:135` does, so invalidation overwrites rather than "first writer wins".
- FilesystemCache.FilesystemBackend.AtomicAdjust: the class's `AtomicAdjust`, and the `Inc` and `Dec` that call it, run the corrected adjustment (no NUL padding, mtime kept). The source's own behaviour is `AtomicAdjustAsWritten` beside it, and the Findings compare the two.
- FilesystemCache.FilesystemBackend.Inc: calls the corrected `AtomicAdjust`; `inc` as written is `AtomicAdjustAsWritten` on the key's file.
- FilesystemCache.FilesystemBackend.Dec: calls the corrected `AtomicAdjust`; `dec` as written is `AtomicAdjustAsWritten` by minus the step.
- LegacyFilesystem.LegacyBackend.AtomicAdjust: runs the corrected adjustment (no NUL padding, mtime kept); the source's own behaviour is `AtomicAdjustAsWritten`.
- LegacyFilesystem.LegacyBackend.Inc: calls the corrected `AtomicAdjust`; `inc` as written is `AtomicAdjustAsWritten` on the key's file.
- LegacyFilesystem.LegacyBackend.Dec: calls the corrected `AtomicAdjust`; `dec` as written is `AtomicAdjustAsWritten` by minus the step.
- LegacyFilesystem.LegacyBackend.Store: runs the corrected store (ttl 0 never expires); the source's own `touch(time() + $ttl)` is `StoreAsWritten`.
- LegacyFilesystem.LegacyBackend.Add: calls the corrected `Store`, so an added entry with ttl 0 never expires; `add` as written would store through `StoreAsWritten`.
- KeyMapping.KeyMapper.GetNamespaceKey: in PHP 5, `substr($component, 1)` of a bare delimiter (a key whose first namespace is empty, such as ":a") is false, and `$this->index[false]` is the slot of namespace "0". The model reads and writes the index under "" instead, so after parse("0:a") a parse(":a") resolves its empty path afresh where PHP 5 reuses "0"'s version. The counter key, which uses false's text "", is the same in both.
- Php.StringToInt: the `(int)` cast follows PHP 5. It reads only leading decimal digits, so "1e3" casts to 1 where PHP 7.1 and later give 1000. It is unbounded where PHP saturates at the 64-bit limits.
- `-$step` with `$step == PHP_INT_MIN` (a float in PHP) is not modelled; `-step` is exact.
- Php.Value: floats stored as values are not modelled (no float variant), so neither is `(int)` of a stored float in the in-memory `inc` nor the text `strval` gives a stored float in the file backends. Only the float an integer overflow makes (`Php.Sum`) is modelled.
- Facade.Instance.SetMapper: takes the concrete `KeyMapper` only; the source accepts any `KeyMapperInterface`, and other mappers are not modelled.
- LegacyFilesystem.Payload: arrays and objects are written as `structText(v)` rather than PHP's joined elements or string conversion.

## Findings

| source | as written | input that shows it | evidently intended | confidence | as-written member | corrected member |
|---|---|---|---|---|---|---|
| src/TreasureChest/Cache/Filesystem.php:65-78 | `fread` leaves the file position after the read; `ftruncate($fp, 0)` does not move it; `fwrite` writes there, so NULs pile up in front of every rewritten record | a file holding `0\|0`; 166 rounds of `inc` then `dec`, then one `inc`: the file is 999 NULs then `0\|1`; the 1000-byte read ends at `0`, which has no `\|`, so every later `inc`/`dec` returns false | rewind before writing, so the record replaces the content | high (not executed) | FilesystemCache.AsWrittenCounterJams | FilesystemCache.CounterKeepsCounting |
| src/TreasureChest/Cache/Filesystem.php:78 | the write sets the file's mtime, which is the entry's expiry, to now | a counter stored with ttl 0 (mtime PHP_INT_MAX), then `inc` at time t: `exists()` and `fetch()` at t or later miss; the mapper then reads version 0 again | the expiry is kept across `inc`/`dec`, as the in-memory backend keeps it | medium (not executed) | FilesystemCache.AsWrittenAdjustExpiresEntry | FilesystemCache.Adjusted |
| lib/TreasureChest/Cache/Filesystem.php:105 | `touch($file, time() + $ttl)` with the default ttl 0 sets the expiry to now | `store(k, "x")` at time t, `fetch(k)` at t + 1 returns false | ttl 0 never expires, as the docblock of `store()` says and the later revision does | high (not executed) | LegacyFilesystem.ZeroTtlExpiresAsWritten | LegacyFilesystem.StoreThenFetch |
| lib/TreasureChest/Cache/Filesystem.php:48-59 | the same missing rewind: NULs pile up in front of the number | a file holding `0`; 500 rounds of `inc` then `dec` leave 1000 NULs then `0`; the read then sees only NULs, which count as 0, so every `inc(k, s)` returns `s` | rewind before writing | high (not executed) | LegacyFilesystem.AsWrittenCounterForgets | LegacyFilesystem.CounterKeepsCounting |
| lib/TreasureChest/Cache/Filesystem.php:59 | the write sets the mtime, which `fetch()` reads as the expiry, to now | a number stored never to expire, `inc` at time t: `fetch()` at t + 1 returns false | the expiry is kept | medium (not executed) | LegacyFilesystem.AsWrittenAdjustExpiresEntry | LegacyFilesystem.Adjusted |
