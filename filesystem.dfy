/**
 * The file backend (src/TreasureChest/Cache/Filesystem.php).  Each key is
 * a file named after a sanitised copy of the key and the last eight
 * characters of its SHA-1; the file holds a one-character header, a '|'
 * and the payload, and its modification time is the entry's expiry.
 *
 * sha1, serialize, unserialize and the text PHP gives a float are not
 * modelled: they are the function parameters digest, serialize,
 * unserialize and floatText.
 */
module FilesystemCache {
  import opened Php
  import opened Files

  // -----------------------------------------------------------------------
  // File names

  /** The characters getPath keeps: letters, digits and : . - | ! ? , */
  predicate Allowed(c: char)
  {
    ('a' <= c <= 'z') || ('A' <= c <= 'Z') || IsDigit(c)
    || c == ':' || c == '.' || c == '-' || c == '|' || c == '!' || c == '?' || c == ','
  }

  /** The character getPath writes for c. */
  function SafeChar(c: char): char
  {
    if Allowed(c) then c else '_'
  }

  /** The key with every character getPath does not keep replaced by '_'. */
  function SafeName(key: string): string
  {
    if key == [] then [] else [SafeChar(key[0])] + SafeName(key[1..])
  }

  /**
   * The sanitised name has the key's length, keeps each allowed character
   * in place, and holds nothing but allowed characters and '_'.
   */
  lemma {:induction false} SafeNameKeepsAllowed(key: string)
    ensures |SafeName(key)| == |key|
    ensures forall k :: 0 <= k < |key| && Allowed(key[k]) ==> SafeName(key)[k] == key[k]
    ensures forall k :: 0 <= k < |key| && !Allowed(key[k]) ==> SafeName(key)[k] == '_'
    ensures forall k :: 0 <= k < |key| ==> Allowed(SafeName(key)[k]) || SafeName(key)[k] == '_'
  {
    if key != [] {
      SafeNameKeepsAllowed(key[1..]);
      var r := SafeName(key);
      assert forall k :: 1 <= k < |key| ==> r[k] == SafeName(key[1..])[k - 1] && key[k] == key[1..][k - 1];
    }
  }

  /** A key made of allowed characters and '_' only is its own safe name, and only such a key. */
  lemma SafeNameFixes(key: string)
    ensures SafeName(key) == key <==> forall k :: 0 <= k < |key| ==> Allowed(key[k]) || key[k] == '_'
  {
    SafeNameKeepsAllowed(key);
    if SafeName(key) == key {
      forall k | 0 <= k < |key|
        ensures Allowed(key[k]) || key[k] == '_'
      {
        assert SafeName(key)[k] == key[k];
      }
    } else {
      var k :| 0 <= k < |key| && SafeName(key)[k] != key[k];
    }
  }

  /** Sanitising twice is sanitising once. */
  lemma SafeNameIsIdempotent(key: string)
    ensures SafeName(SafeName(key)) == SafeName(key)
  {
    SafeNameKeepsAllowed(key);
    SafeNameFixes(SafeName(key));
  }

  /** getPath: directory, prefix, safe name, '_', the last eight characters of the digest. */
  function PathFor(dir: string, prefix: string, digest: string -> string, key: string): string
  {
    dir + prefix + SafeName(key) + "_" + LastChars(digest(key), 8)
  }

  /**
   * Two keys share a file exactly when their safe names agree and their
   * digests end in the same eight characters: keys that differ only in
   * characters outside the allowed set are told apart by the digest alone.
   */
  lemma PathsCollideExactly(dir: string, prefix: string, digest: string -> string, k1: string, k2: string)
    requires |digest(k1)| >= 8 && |digest(k2)| >= 8
    ensures PathFor(dir, prefix, digest, k1) == PathFor(dir, prefix, digest, k2)
        <==> SafeName(k1) == SafeName(k2) && LastChars(digest(k1), 8) == LastChars(digest(k2), 8)
  {
    var base := dir + prefix;
    var s1, s2 := SafeName(k1), SafeName(k2);
    var h1, h2 := LastChars(digest(k1), 8), LastChars(digest(k2), 8);
    var p1 := PathFor(dir, prefix, digest, k1);
    var p2 := PathFor(dir, prefix, digest, k2);
    assert p1 == base + s1 + "_" + h1;
    assert p2 == base + s2 + "_" + h2;
    if p1 == p2 {
      assert |s1| == |s2|;
      assert s1 == p1[|base|..|base| + |s1|];
      assert s2 == p2[|base|..|base| + |s2|];
      assert h1 == p1[|p1| - 8..];
      assert h2 == p2[|p2| - 8..];
    }
  }

  // -----------------------------------------------------------------------
  // The record format

  /** The content store() writes: "1|" and the serialised form for arrays and objects, "0|" and strval otherwise. */
  function Encode(v: Value, serialize: Value -> string): string
  {
    if v.VStruct? then "1|" + serialize(v) else "0|" + ToText(v)
  }

  /**
   * What fetch() makes of a file's content: split at the first '|', the
   * rest unserialised under header 1, returned as a string otherwise
   * (null when there is no '|').
   */
  function Decode(content: string, unserialize: string -> Value): Value
  {
    var (header, rest) := SplitAtFirst(content, '|');
    if header == "1" then unserialize(if rest.Some? then rest.value else "")
    else if rest.Some? then VStr(rest.value) else VNull
  }

  /**
   * The record format round-trips: a string comes back as itself, '|'
   * included; arrays and objects come back as unserialize(serialize(v));
   * every other value comes back as its strval text.
   */
  lemma DecodeEncode(v: Value, serialize: Value -> string, unserialize: string -> Value)
    ensures v.VStruct? ==> Decode(Encode(v, serialize), unserialize) == unserialize(serialize(v))
    ensures !v.VStruct? ==> Decode(Encode(v, serialize), unserialize) == VStr(ToText(v))
    ensures v.VStr? ==> Decode(Encode(v, serialize), unserialize) == v
  {
    if v.VStruct? {
      assert Encode(v, serialize) == "1" + "|" + serialize(v);
      SplitAtFirstOf("1", serialize(v), '|');
    } else {
      assert Encode(v, serialize) == "0" + "|" + ToText(v);
      SplitAtFirstOf("0", ToText(v), '|');
    }
  }

  // -----------------------------------------------------------------------
  // The entry operations on the disk

  /** exists(): the file is there and its mtime lies strictly after now. */
  predicate Live(disk: Disk, p: string, now: int)
  {
    p in disk && disk[p].mtime > now
  }

  /** The disk after store(): the file at p holds the record and the expiry; nothing else changes. */
  function Stored(disk: Disk, p: string, v: Value, ttl: int, now: int, serialize: Value -> string): (r: Disk)
    ensures r.Keys == disk.Keys + {p}
    ensures forall q :: q in disk && q != p ==> r[q] == disk[q]
    ensures r[p].content == Encode(v, serialize)
    ensures Live(r, p, now) <==> ttl > 0 || (ttl == 0 && now < IntMax)
  {
    disk[p := File(Encode(v, serialize), MtimeFor(ttl, now))]
  }

  /** add() writes only when no file is there, live or expired. */
  predicate AddSucceeds(disk: Disk, p: string)
  {
    p !in disk
  }

  function Added(disk: Disk, p: string, v: Value, ttl: int, now: int, serialize: Value -> string): Disk
  {
    if AddSucceeds(disk, p) then Stored(disk, p, v, ttl, now, serialize) else disk
  }

  function Replaced(disk: Disk, p: string, v: Value, ttl: int, now: int, serialize: Value -> string): Disk
  {
    if Live(disk, p, now) then Stored(disk, p, v, ttl, now, serialize) else disk
  }

  /** fetch(): the decoded record of a live file, false otherwise. */
  function Fetched(disk: Disk, p: string, now: int, unserialize: string -> Value): Value
  {
    if Live(disk, p, now) then Decode(disk[p].content, unserialize) else VBool(false)
  }

  /** What store() writes, fetch() returns at once, under the record format's round trip. */
  lemma StoreThenFetch(disk: Disk, p: string, v: Value, ttl: int, now: int,
                       serialize: Value -> string, unserialize: string -> Value)
    requires ttl > 0 || (ttl == 0 && now < IntMax)
    ensures Fetched(Stored(disk, p, v, ttl, now, serialize), p, now, unserialize)
         == Decode(Encode(v, serialize), unserialize)
    ensures v.VStr? ==> Fetched(Stored(disk, p, v, ttl, now, serialize), p, now, unserialize) == v
  {
    DecodeEncode(v, serialize, unserialize);
  }

  /** An integer comes back from the file as its decimal text, not as an integer. */
  lemma IntegersComeBackAsText(disk: Disk, p: string, n: int, now: int,
                               serialize: Value -> string, unserialize: string -> Value)
    requires now < IntMax
    ensures Fetched(Stored(disk, p, VInt(n), 0, now, serialize), p, now, unserialize) == VStr(IntToString(n))
  {
    DecodeEncode(VInt(n), serialize, unserialize);
  }

  /**
   * The files glob(base . '*') lists: names that start with base and go on
   * without a '/'; when the pattern's last component is the bare '*', a
   * name starting with '.' is not listed.
   */
  predicate Globbed(base: string, p: string)
  {
    |base| <= |p| && p[..|base|] == base && '/' !in p[|base|..]
    && !((base == [] || base[|base| - 1] == '/') && |p| > |base| && p[|base|] == '.')
  }

  /** The disk after clear(): every listed file is unlinked, every other file kept. */
  function Cleared(disk: Disk, base: string): (r: Disk)
    ensures forall q :: q in r <==> q in disk && !Globbed(base, q)
    ensures forall q :: q in r ==> r[q] == disk[q]
  {
    map q | q in disk && !Globbed(base, q) :: disk[q]
  }

  /**
   * clear() removes the file of every key whose digest ends in no '/' — a
   * hexadecimal SHA-1 never does — unless the prefix is empty and the key
   * starts with '.'.
   */
  lemma ClearRemovesEntry(disk: Disk, dir: string, prefix: string, digest: string -> string, key: string)
    requires '/' !in prefix && '/' !in LastChars(digest(key), 8)
    requires prefix == "" ==> key == [] || key[0] != '.'
    ensures PathFor(Directory(dir), prefix, digest, key) !in Cleared(disk, Directory(dir) + prefix)
  {
    var base := Directory(dir) + prefix;
    var name := SafeName(key);
    var p := PathFor(Directory(dir), prefix, digest, key);
    var rest := name + "_" + LastChars(digest(key), 8);
    assert p == base + rest;
    assert p[..|base|] == base && p[|base|..] == rest;
    SafeNameKeepsAllowed(key);
    assert '/' !in rest by {
      forall k | 0 <= k < |rest|
        ensures rest[k] != '/'
      {
        if k < |name| {
          assert Allowed(name[k]) || name[k] == '_';
        } else if k > |name| {
          assert rest[k] == LastChars(digest(key), 8)[k - |name| - 1];
        }
      }
    }
    if prefix != "" {
      assert base[|base| - 1] == prefix[|prefix| - 1];
    }
  }

  /**
   * With the empty prefix the glob pattern ends in a bare '*', which skips
   * dot files: the entry of a key starting with '.' survives clear().
   */
  lemma ClearSparesDotKeys(disk: Disk, path: string, digest: string -> string, key: string)
    requires |path| >= 1 && path[|path| - 1] == '/'
    requires key != [] && key[0] == '.'
    requires PathFor(path, "", digest, key) in disk
    ensures PathFor(path, "", digest, key) in Cleared(disk, path + "")
  {
    var name := SafeName(key);
    assert name[0] == '.';
    var p := PathFor(path, "", digest, key);
    DotAfterBase(path, name, LastChars(digest(key), 8));
    assert !Globbed(path + "", p);
  }

  lemma DotAfterBase(base: string, name: string, h: string)
    requires name != [] && name[0] == '.'
    ensures var p := base + "" + name + "_" + h;
      base + "" == base && |p| > |base| && p[..|base|] == base && p[|base|] == '.'
  {
    var p := base + "" + name + "_" + h;
    assert p == base + (name + "_" + h);
  }

  // -----------------------------------------------------------------------
  // atomicAdjust

  /**
   * The read-parse-add step of atomicAdjust on a file's content: the
   * trimmed first 1000 characters, "0|0" when that is empty, then the
   * counter is parsed.  None is the false the source returns.
   */
  function AdjustStep(content: string, step: int): Option<(string, Sum)>
  {
    var read := Trim(ReadWindow(content));
    ParseCounter(if read == "" then "0|0" else read, step)
  }

  /** The header before the first '|', the rest validated as an integer and the step added. */
  function ParseCounter(value: string, step: int): Option<(string, Sum)>
  {
    var (header, rest) := SplitAtFirst(value, '|');
    if rest.None? then None
    else
      match ValidateInt(rest.value)
      case None => None
      case Some(n) => Some((header, AddInts(n, step)))
  }

  /** A record h|n parses back to its header and number. */
  lemma ParseCounterOf(value: string, h: string, n: int, step: int)
    requires value == h + "|" + IntToString(n)
    requires '|' !in h && IntMin <= n <= IntMax
    ensures ParseCounter(value, step) == Some((h, AddInts(n, step)))
  {
    SplitAtFirstOf(h, IntToString(n), '|');
    ValidateIntOfIntToString(n);
  }

  /** The record atomicAdjust writes back. */
  function Counter(header: string, sum: Sum, floatText: int -> string): string
  {
    header + "|" + SumText(sum, floatText)
  }

  /**
   * The write-back of atomicAdjust once the content has been parsed: the
   * file at p becomes header|sum with its expiry kept, or, when parsing
   * failed, nothing changes and the result is false (None).
   */
  function Rewritten(disk: Disk, p: string, parsed: Option<(string, Sum)>, floatText: int -> string): (r: (Option<Sum>, Disk))
    requires parsed.Some? ==> p in disk
    ensures r.0.None? <==> parsed.None?
    ensures r.0.None? ==> r.1 == disk
    ensures r.1.Keys == disk.Keys
    ensures forall q :: q in disk && q != p ==> r.1[q] == disk[q]
    ensures forall t :: Live(r.1, p, t) <==> Live(disk, p, t)
  {
    if parsed.None? then (None, disk)
    else
      var (header, sum) := parsed.value;
      (Some(sum), disk[p := disk[p].(content := Counter(header, sum, floatText))])
  }

  /**
   * atomicAdjust with the content replaced and the expiry kept.  A missing
   * file is not counted either.
   */
  function Adjusted(disk: Disk, p: string, step: int, floatText: int -> string): (r: (Option<Sum>, Disk))
    ensures p !in disk ==> r.0.None?
    ensures r.0.None? ==> r.1 == disk
    ensures r.1.Keys == disk.Keys
    ensures forall q :: q in disk && q != p ==> r.1[q] == disk[q]
    ensures forall t :: Live(r.1, p, t) <==> Live(disk, p, t)
  {
    Rewritten(disk, p, if p in disk then AdjustStep(disk[p].content, step) else None, floatText)
  }

  /**
   * A counter record h|n that fits the 1000-character read parses back to
   * its header and number, whatever the step.
   */
  lemma AdjustStepOfCounter(c: string, h: string, n: int, step: int)
    requires c == h + "|" + IntToString(n)
    requires '|' !in h && h != [] && !IsTrimmed(h[0]) && |h| <= 979
    requires IntMin <= n <= IntMax
    ensures AdjustStep(c, step) == Some((h, AddInts(n, step)))
  {
    IntToStringIsShort(n);
    assert ReadWindow(c) == c;
    IntToStringShape(n);
    assert c[|c| - 1] == IntToString(n)[|IntToString(n)| - 1] && c[0] == h[0];
    TrimKeeps(c);
    ParseCounterOf(c, h, n, step);
  }

  /** The write-back once the content has parsed to header and sum. */
  lemma AdjustedOfParsed(disk: Disk, p: string, step: int, floatText: int -> string, h: string, sum: Sum)
    requires p in disk && AdjustStep(disk[p].content, step) == Some((h, sum))
    ensures Adjusted(disk, p, step, floatText) == (Some(sum), disk[p := disk[p].(content := Counter(h, sum, floatText))])
  {
  }

  /** Adjusting a counter record h|n by a step rewrites it to h|n+step and keeps its expiry. */
  lemma AdjustedCounter(disk: Disk, p: string, h: string, n: int, step: int, floatText: int -> string)
    requires '|' !in h && h != [] && !IsTrimmed(h[0]) && |h| <= 979
    requires p in disk && disk[p].content == h + "|" + IntToString(n)
    requires IntMin <= n <= IntMax && IntMin <= n + step <= IntMax
    ensures Adjusted(disk, p, step, floatText)
         == (Some(IntSum(n + step)), disk[p := disk[p].(content := h + "|" + IntToString(n + step))])
  {
    AdjustStepOfCounter(disk[p].content, h, n, step);
    AdjustedOfParsed(disk, p, step, floatText, h, IntSum(n + step));
  }

  /** Adjusting a counter record by a step and back by the same step restores the file. */
  lemma IncThenDecRestores(disk: Disk, p: string, h: string, n: int, step: int, floatText: int -> string)
    requires '|' !in h && h != [] && !IsTrimmed(h[0]) && |h| <= 979
    requires p in disk && disk[p].content == h + "|" + IntToString(n)
    requires IntMin <= n <= IntMax && IntMin <= n + step <= IntMax
    ensures Adjusted(disk, p, step, floatText).0 == Some(IntSum(n + step))
    ensures Adjusted(Adjusted(disk, p, step, floatText).1, p, -step, floatText) == (Some(IntSum(n)), disk)
  {
    AdjustedCounter(disk, p, h, n, step, floatText);
    AdjustedBack(disk, disk[p := disk[p].(content := h + "|" + IntToString(n + step))], p, h, n, n + step, floatText);
  }

  lemma AdjustedBack(disk: Disk, once: Disk, p: string, h: string, n: int, m: int, floatText: int -> string)
    requires '|' !in h && h != [] && !IsTrimmed(h[0]) && |h| <= 979
    requires p in disk && disk[p].content == h + "|" + IntToString(n)
    requires IntMin <= n <= IntMax && IntMin <= m <= IntMax
    requires once == disk[p := disk[p].(content := h + "|" + IntToString(m))]
    ensures Adjusted(once, p, n - m, floatText) == (Some(IntSum(n)), disk)
  {
    AdjustedCounter(once, p, h, m, n - m, floatText);
    assert m + (n - m) == n;
    RestoreContent(disk, p, h + "|" + IntToString(n), h + "|" + IntToString(m));
  }

  /** A stored integer is counted from: inc adds to the number store() wrote. */
  lemma IncOfStoredInt(disk: Disk, p: string, n: int, ttl: int, now: int, step: int,
                       serialize: Value -> string, floatText: int -> string)
    requires IntMin <= n <= IntMax
    ensures var after := Adjusted(Stored(disk, p, VInt(n), ttl, now, serialize), p, step, floatText);
      && after.0 == Some(AddInts(n, step))
      && after.1[p].content == "0|" + SumText(AddInts(n, step), floatText)
  {
    var stored := Stored(disk, p, VInt(n), ttl, now, serialize);
    AdjustStepOfCounter(stored[p].content, "0", n, step);
    AdjustedOfParsed(stored, p, step, floatText, "0", AddInts(n, step));
  }

  /** An empty or blank file counts as "0|0": the first inc writes 0|step. */
  lemma BlankFileCountsFromZero(disk: Disk, p: string, step: int, floatText: int -> string)
    requires p in disk && Trim(ReadWindow(disk[p].content)) == ""
    requires IntMin <= step <= IntMax
    ensures Adjusted(disk, p, step, floatText).0 == Some(IntSum(step))
    ensures Adjusted(disk, p, step, floatText).1[p].content == "0|" + IntToString(step)
  {
    assert IntToString(0) == "0";
    ParseCounterOf("0|0", "0", 0, step);
    AdjustedOfParsed(disk, p, step, floatText, "0", IntSum(step));
  }

  /** Content without a '|' (after trimming) is never a counter: false, and nothing is written. */
  lemma NoSeparatorNoCount(disk: Disk, p: string, step: int, floatText: int -> string)
    requires p in disk
    requires var read := Trim(ReadWindow(disk[p].content)); read != "" && '|' !in read
    ensures Adjusted(disk, p, step, floatText) == (None, disk)
  {
    SplitAtFirstSplits(Trim(ReadWindow(disk[p].content)), '|');
  }

  /**
   * A NUL after the '|' of the record is no number: trim() only strips the
   * ends of the whole record, and filter_var keeps NUL, so inc and dec fail
   * and write nothing.
   */
  lemma NulInNumberNoCount(disk: Disk, p: string, step: int, floatText: int -> string,
                           h: string, rest: string, i: nat)
    requires p in disk && disk[p].content == h + "|" + rest && |disk[p].content| <= 1000
    requires '|' !in h && h != [] && !IsTrimmed(h[0])
    requires i < |rest| && rest[i] == '\0' && !IsTrimmed(rest[|rest| - 1])
    ensures Adjusted(disk, p, step, floatText) == (None, disk)
  {
    var c := disk[p].content;
    assert c[0] == h[0] && c[|c| - 1] == rest[|rest| - 1];
    TrimKeeps(c);
    SplitAtFirstOf(h, rest, '|');
    ValidateIntRejectsNul(rest, i);
  }

  // -----------------------------------------------------------------------
  // atomicAdjust as written

  /**
   * The content atomicAdjust as written leaves: after fread the file
   * position stays where the read ended, ftruncate(0) does not move it, and
   * fwrite writes there, so the bytes before the record read back as NUL.
   * Content that is no counter is left as it is.
   */
  function ContentAsWritten(content: string, step: int, floatText: int -> string): string
  {
    match AdjustStep(content, step)
    case None => content
    case Some((header, sum)) => NulPad(|ReadWindow(content)|) + Counter(header, sum, floatText)
  }

  /**
   * atomicAdjust as the source writes it: the content as above, and the
   * write stamps the file's mtime, which is its expiry, with the current time.
   */
  function AdjustedAsWritten(disk: Disk, p: string, step: int, now: int, floatText: int -> string): (r: (Option<Sum>, Disk))
    ensures r.0 == Adjusted(disk, p, step, floatText).0
    ensures r.0.None? ==> r.1 == disk
    ensures r.1.Keys == disk.Keys
  {
    if p !in disk then (None, disk)
    else
      match AdjustStep(disk[p].content, step)
      case None => (None, disk)
      case Some((_, sum)) => (Some(sum), disk[p := File(ContentAsWritten(disk[p].content, step, floatText), now)])
  }

  /** While the file fits the read window, the NUL padding is stripped by trim and does not show. */
  lemma AdjustStepIgnoresPadding(k: nat, c: string, step: int)
    requires k + |c| <= 1000
    requires c != [] && !IsTrimmed(c[0]) && !IsTrimmed(c[|c| - 1])
    ensures AdjustStep(NulPad(k) + c, step) == AdjustStep(c, step)
  {
    TrimNulPrefix(k, c);
    TrimKeeps(c);
  }

  /**
   * One adjustment as written of a NUL-padded counter record that fits the
   * read window: the count is right, and the content grows by the whole
   * record's length in NULs.
   */
  lemma AsWrittenStep(content: string, k: nat, h: string, n: int, step: int, floatText: int -> string)
    requires '|' !in h && h != [] && !IsTrimmed(h[0]) && |h| <= 979
    requires IntMin <= n <= IntMax && IntMin <= n + step <= IntMax
    requires content == NulPad(k) + (h + "|" + IntToString(n)) && |content| <= 1000
    ensures AdjustStep(content, step) == Some((h, IntSum(n + step)))
    ensures ContentAsWritten(content, step, floatText) == NulPad(|content|) + (h + "|" + IntToString(n + step))
  {
    var c := h + "|" + IntToString(n);
    IntToStringShape(n);
    assert c[|c| - 1] == IntToString(n)[|IntToString(n)| - 1] && c[0] == h[0];
    AdjustStepIgnoresPadding(k, c, step);
    AdjustStepOfCounter(c, h, n, step);
  }

  /** The content after j rounds of inc by one then dec by one, as written. */
  ghost function RoundsAsWritten(content: string, j: nat, floatText: int -> string): string
  {
    if j == 0 then content
    else ContentAsWritten(ContentAsWritten(RoundsAsWritten(content, j - 1, floatText), 1, floatText), -1, floatText)
  }

  /**
   * One round of inc by one then dec by one, as written, of a padded
   * record h|0 adds twice the record's length in NULs in front of it.
   */
  lemma OneRoundAsWritten(c: string, k: nat, h: string, floatText: int -> string)
    requires '|' !in h && h != [] && !IsTrimmed(h[0]) && |h| <= 979
    requires c == NulPad(k) + (h + "|" + IntToString(0)) && k + 2 * |h| + 4 <= 1000
    ensures ContentAsWritten(ContentAsWritten(c, 1, floatText), -1, floatText)
         == NulPad(k + 2 * |h| + 4) + (h + "|" + IntToString(0))
  {
    assert IntToString(0) == "0" && IntToString(1) == "1";
    AsWrittenStep(c, k, h, 0, 1, floatText);
    var once := ContentAsWritten(c, 1, floatText);
    AsWrittenStep(once, k + |h| + 2, h, 1, -1, floatText);
  }

  /** Each round adds twice the record's length in NULs in front of the record h|0. */
  lemma {:induction false} RoundsAsWrittenPad(content: string, h: string, w: nat, j: nat, floatText: int -> string)
    requires '|' !in h && h != [] && !IsTrimmed(h[0]) && |h| <= 979
    requires content == h + "|" + IntToString(0) && w == 2 * |h| + 4
    requires w * j + |content| <= 1000
    ensures RoundsAsWritten(content, j, floatText) == NulPad(w * j) + content
  {
    if j == 0 {
      assert NulPad(0) + content == content;
    } else {
      assert w * j == w * (j - 1) + w;
      RoundsAsWrittenPad(content, h, w, j - 1, floatText);
      OneRoundAsWritten(RoundsAsWritten(content, j - 1, floatText), w * (j - 1), h, floatText);
    }
  }

  /**
   * A NUL-padded record whose read window ends at its one-character header
   * is no counter: the read holds no '|'.
   */
  lemma JammedRecordIsRejected(c: string, h: string, rest: string, step: int)
    requires |h| == 1 && h[0] != '|' && !IsTrimmed(h[0])
    requires c == NulPad(999) + (h + rest)
    ensures AdjustStep(c, step) == None
  {
    assert ReadWindow(c) == NulPad(999) + h;
    TrimNulPrefix(999, h);
    SplitAtFirstSplits(h, '|');
  }

  /**
   * The counter jams: from a file holding h|0 with a one-character header,
   * as store() writes it, 166 rounds of inc and dec and one more inc leave
   * 999 NULs then h|1.  The 1000-character read then ends inside the
   * record, at h, which has no '|': every later inc or dec of a file
   * holding it returns false and leaves the file as it is.
   */
  lemma AsWrittenCounterJams(content: string, h: string, floatText: int -> string)
    requires |h| == 1 && h[0] != '|' && !IsTrimmed(h[0])
    requires content == h + "|" + IntToString(0)
    ensures var jammed := ContentAsWritten(RoundsAsWritten(content, 166, floatText), 1, floatText);
      && jammed == NulPad(999) + (h + "|" + IntToString(1))
      && forall disk: Disk, p, step, now :: p in disk && disk[p].content == jammed ==>
           AdjustedAsWritten(disk, p, step, now, floatText) == (None, disk)
  {
    assert |content| == 3;
    RoundsAsWrittenPad(content, h, 6, 166, floatText);
    LastIncJams(RoundsAsWritten(content, 166, floatText), h, floatText);
  }

  /** The inc after the 166th round writes the jammed record. */
  lemma LastIncJams(before: string, h: string, floatText: int -> string)
    requires |h| == 1 && h[0] != '|' && !IsTrimmed(h[0])
    requires before == NulPad(996) + (h + "|" + IntToString(0))
    ensures var jammed := ContentAsWritten(before, 1, floatText);
      && jammed == NulPad(999) + (h + "|" + IntToString(1))
      && forall disk: Disk, p, step, now :: p in disk && disk[p].content == jammed ==>
           AdjustedAsWritten(disk, p, step, now, floatText) == (None, disk)
  {
    assert |IntToString(0)| == 1;
    AsWrittenStep(before, 996, h, 0, 1, floatText);
    var jammed := ContentAsWritten(before, 1, floatText);
    forall disk: Disk, p, step, now | p in disk && disk[p].content == jammed
      ensures AdjustedAsWritten(disk, p, step, now, floatText) == (None, disk)
    {
      JammedRecordIsRejected(jammed, h, "|" + IntToString(1), step);
    }
  }

  /** The intended counter does not jam: the same operations leave "0|1", which counts on. */
  lemma CounterKeepsCounting(disk: Disk, p: string, step: int, floatText: int -> string)
    requires p in disk && disk[p].content == "0|0"
    requires IntMin <= 1 + step <= IntMax
    ensures var once := Adjusted(disk, p, 1, floatText).1;
      && once[p].content == "0|1"
      && Adjusted(once, p, step, floatText).0 == Some(IntSum(1 + step))
  {
    assert IntToString(0) == "0" && IntToString(1) == "1";
    AdjustStepOfCounter(disk[p].content, "0", 0, 1);
    AdjustedOfParsed(disk, p, 1, floatText, "0", IntSum(1));
    var once := Adjusted(disk, p, 1, floatText).1;
    AdjustStepOfCounter(once[p].content, "0", 1, step);
  }

  /**
   * The write stamps the mtime, which is the expiry: a live entry that is
   * counted is no longer live, now or at any later time.
   */
  lemma AsWrittenAdjustExpiresEntry(disk: Disk, p: string, step: int, now: int, later: int, floatText: int -> string)
    requires Live(disk, p, now) && AdjustStep(disk[p].content, step).Some?
    requires later >= now
    ensures !Live(AdjustedAsWritten(disk, p, step, now, floatText).1, p, later)
    ensures Live(Adjusted(disk, p, step, floatText).1, p, later) <==> Live(disk, p, later)
  {
  }

  // -----------------------------------------------------------------------
  // The backend object

  class FilesystemBackend {
    var disk: Disk
    /** The cache directory, normalised by the constructor. */
    const path: string
    const prefix: string
    const digest: string -> string
    const serialize: Value -> string
    const unserialize: string -> Value
    const floatText: int -> string

    constructor(disk: Disk, dir: string, prefix: string, digest: string -> string,
                serialize: Value -> string, unserialize: string -> Value, floatText: int -> string)
      ensures this.disk == disk && path == Directory(dir) && this.prefix == prefix
      ensures this.digest == digest && this.serialize == serialize
      ensures this.unserialize == unserialize && this.floatText == floatText
    {
      this.disk := disk;
      path := RTrim(dir, '/') + "/";
      this.prefix := prefix;
      this.digest := digest;
      this.serialize := serialize;
      this.unserialize := unserialize;
      this.floatText := floatText;
    }

    function GetPath(key: string): string
    {
      PathFor(path, prefix, digest, key)
    }

    method Add(key: string, v: Value, ttl: int, now: int) returns (ok: bool)
      modifies this
      ensures ok == AddSucceeds(old(disk), GetPath(key))
      ensures disk == Added(old(disk), GetPath(key), v, ttl, now, serialize)
    {
      if GetPath(key) in disk {
        return false;
      }
      ok := Store(key, v, ttl, now);
    }

    method Store(key: string, v: Value, ttl: int, now: int) returns (ok: bool)
      modifies this
      ensures ok
      ensures disk == Stored(old(disk), GetPath(key), v, ttl, now, serialize)
    {
      var file := GetPath(key);
      var data := if v.VStruct? then "1|" + serialize(v) else "0|" + ToText(v);
      disk := disk[file := File(data, now)];
      var mtime := if ttl == 0 then IntMax else now + ttl;
      disk := disk[file := disk[file].(mtime := mtime)];
      ok := true;
    }

    method Replace(key: string, v: Value, ttl: int, now: int) returns (ok: bool)
      modifies this
      ensures ok == Live(old(disk), GetPath(key), now)
      ensures disk == Replaced(old(disk), GetPath(key), v, ttl, now, serialize)
    {
      var present := Exists(key, now);
      if !present {
        return false;
      }
      ok := Store(key, v, ttl, now);
    }

    method Exists(key: string, now: int) returns (b: bool)
      ensures b == Live(disk, GetPath(key), now)
    {
      var file := GetPath(key);
      b := file in disk && disk[file].mtime > now;
    }

    /**
     * successIn is the caller's by-reference flag on entry and success its
     * value on return: a miss sets it to false, a hit leaves it alone.
     */
    method Fetch(key: string, now: int, successIn: bool) returns (v: Value, success: bool)
      ensures v == Fetched(disk, GetPath(key), now, unserialize)
      ensures !Live(disk, GetPath(key), now) ==> v == VBool(false) && !success
      ensures Live(disk, GetPath(key), now) ==> success == successIn
    {
      success := successIn;
      var present := Exists(key, now);
      if !present {
        success := false;
        return VBool(false), success;
      }
      var data := disk[GetPath(key)].content;
      var (header, rest) := SplitAtFirst(data, '|');
      if header == "1" {
        v := unserialize(if rest.Some? then rest.value else "");
      } else if rest.Some? {
        v := VStr(rest.value);
      } else {
        v := VNull;
      }
    }

    /** Locking is one atomic step here; success is set to false and never to true. */
    method AtomicAdjust(file: string, step: int) returns (r: Option<Sum>, success: bool)
      modifies this
      ensures !success
      ensures (r, disk) == Adjusted(old(disk), file, step, floatText)
    {
      success := false;
      if file !in disk {
        return None, success;
      }
      var value := Trim(ReadWindow(disk[file].content));
      if value == "" {
        value := "0|0";
      }
      var (header, rest) := SplitAtFirst(value, '|');
      if rest.None? {
        return None, success;
      }
      var parsed := ValidateInt(rest.value);
      if parsed.None? {
        return None, success;
      }
      var sum := AddInts(parsed.value, step);
      disk := disk[file := disk[file].(content := header + "|" + SumText(sum, floatText))];
      r := Some(sum);
    }

    /**
     * atomicAdjust as the source writes it: fwrite writes where fread
     * stopped, so the gap left by ftruncate reads back as NULs, and the
     * write stamps the mtime with the current time.
     */
    method AtomicAdjustAsWritten(file: string, step: int, now: int) returns (r: Option<Sum>, success: bool)
      modifies this
      ensures !success
      ensures (r, disk) == AdjustedAsWritten(old(disk), file, step, now, floatText)
    {
      success := false;
      if file !in disk {
        return None, success;
      }
      var window := ReadWindow(disk[file].content);
      var value := Trim(window);
      if value == "" {
        value := "0|0";
      }
      var (header, rest) := SplitAtFirst(value, '|');
      if rest.None? {
        return None, success;
      }
      var parsed := ValidateInt(rest.value);
      if parsed.None? {
        return None, success;
      }
      var sum := AddInts(parsed.value, step);
      disk := disk[file := File(NulPad(|window|) + (header + "|" + SumText(sum, floatText)), now)];
      r := Some(sum);
    }

    method Inc(key: string, step: int) returns (r: Option<Sum>, success: bool)
      modifies this
      ensures !success
      ensures (r, disk) == Adjusted(old(disk), GetPath(key), step, floatText)
    {
      r, success := AtomicAdjust(GetPath(key), step);
    }

    method Dec(key: string, step: int) returns (r: Option<Sum>, success: bool)
      modifies this
      ensures !success
      ensures (r, disk) == Adjusted(old(disk), GetPath(key), -step, floatText)
    {
      r, success := AtomicAdjust(GetPath(key), -step);
    }

    method Delete(key: string) returns (ok: bool)
      modifies this
      ensures (ok, disk) == Deleted(old(disk), GetPath(key))
    {
      var file := GetPath(key);
      ok := file in disk;
      disk := disk - {file};
    }

    method Clear() returns (ok: bool)
      modifies this
      ensures ok && disk == Cleared(old(disk), path + prefix)
    {
      var base := path + prefix;
      disk := map q | q in disk && !Globbed(base, q) :: disk[q];
      ok := true;
    }
  }
}
