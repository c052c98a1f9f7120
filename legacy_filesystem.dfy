/**
 * The earlier file backend (lib/TreasureChest/Cache/Filesystem.php).  A
 * key is the file named after its SHA-1 in the cache directory; the file
 * holds the value as file_put_contents writes it, with no header, and the
 * file's modification time is the entry's expiry, which only fetch()
 * consults.  There is no replace() and no clear().
 *
 * sha1, the text file_put_contents writes for an array or an object, and
 * the text PHP gives a float are not modelled: they are the function
 * parameters digest, structText and floatText.
 */
module LegacyFilesystem {
  import opened Php
  import opened Files

  // -----------------------------------------------------------------------
  // File names

  /** getPath: the directory and the key's digest. */
  function PathFor(dir: string, digest: string -> string, key: string): string
  {
    dir + digest(key)
  }

  /** Two keys share a file exactly when their digests agree. */
  lemma PathsCollideIffDigestsDo(dir: string, digest: string -> string, k1: string, k2: string)
    ensures PathFor(dir, digest, k1) == PathFor(dir, digest, k2) <==> digest(k1) == digest(k2)
  {
    if PathFor(dir, digest, k1) == PathFor(dir, digest, k2) {
      assert digest(k1) == PathFor(dir, digest, k1)[|dir|..];
      assert digest(k2) == PathFor(dir, digest, k2)[|dir|..];
    }
  }

  // -----------------------------------------------------------------------
  // Entries

  /** The text file_put_contents writes for a value. */
  function Payload(v: Value, structText: Value -> string): string
  {
    if v.VStruct? then structText(v) else ToText(v)
  }

  /**
   * store() as written: the file gets the payload; when no byte was written
   * the result is false and the file is left empty with the current mtime,
   * otherwise touch() sets the mtime to now + ttl, ttl 0 included.
   */
  function StoredAsWritten(disk: Disk, p: string, data: string, ttl: int, now: int): (r: (bool, Disk))
    ensures r.0 <==> data != ""
    ensures r.1.Keys == disk.Keys + {p} && r.1[p].content == data
    ensures forall q :: q in disk && q != p ==> r.1[q] == disk[q]
  {
    if ByteLength(data) == 0 then (false, disk[p := File(data, now)])
    else (true, disk[p := File(data, now + ttl)])
  }

  /** store() as its documentation promises: ttl 0 never expires. */
  function Stored(disk: Disk, p: string, data: string, ttl: int, now: int): (r: (bool, Disk))
    ensures r.0 <==> data != ""
    ensures r.1.Keys == disk.Keys + {p} && r.1[p].content == data
    ensures forall q :: q in disk && q != p ==> r.1[q] == disk[q]
  {
    if ByteLength(data) == 0 then (false, disk[p := File(data, now)])
    else (true, disk[p := File(data, MtimeFor(ttl, now))])
  }

  /** add(): refused when the file is there, expired or not. */
  function Added(disk: Disk, p: string, data: string, ttl: int, now: int): (r: (bool, Disk))
    ensures p in disk ==> r == (false, disk)
    ensures p !in disk ==> r == Stored(disk, p, data, ttl, now)
  {
    if p in disk then (false, disk) else Stored(disk, p, data, ttl, now)
  }

  /** fetch(): the content of a file whose mtime is not before now, false otherwise. */
  function Fetched(disk: Disk, p: string, now: int): Value
  {
    if p !in disk || disk[p].mtime < now then VBool(false) else VStr(disk[p].content)
  }

  /**
   * What store() writes, fetch() returns until the expiry and not after:
   * for ttl 0 at every time from now on.
   */
  lemma StoreThenFetch(disk: Disk, p: string, data: string, ttl: int, now: int, t: int)
    requires data != "" && ttl >= 0 && now <= t
    ensures var after := Stored(disk, p, data, ttl, now).1;
      && (ttl == 0 && t <= IntMax ==> Fetched(after, p, t) == VStr(data))
      && (ttl > 0 ==> (Fetched(after, p, t) == VStr(data) <==> t <= now + ttl))
  {
  }

  /**
   * A store() of an empty payload fails but leaves an empty file behind,
   * which exists() reports and which makes every later add() fail.
   */
  lemma EmptyStoreLeavesFile(disk: Disk, p: string, ttl: int, now: int, data: string, ttl2: int, later: int)
    ensures var r := Stored(disk, p, "", ttl, now);
      && !r.0 && p in r.1 && r.1[p].content == ""
      && Added(r.1, p, data, ttl2, later) == (false, r.1)
  {
  }

  /** With ttl 0 the entry as written is gone one second after the store. */
  lemma ZeroTtlExpiresAsWritten(disk: Disk, p: string, data: string, now: int)
    requires data != "" && now < IntMax
    ensures Fetched(StoredAsWritten(disk, p, data, 0, now).1, p, now + 1) == VBool(false)
    ensures Fetched(Stored(disk, p, data, 0, now).1, p, now + 1) == VStr(data)
  {
    assert ByteLength(data) != 0;
  }

  // -----------------------------------------------------------------------
  // atomicAdjust

  /**
   * The number atomicAdjust reads: the trimmed first 1000 characters, 0
   * when that is empty, otherwise filter_var's integer (None is false).
   */
  function ReadCount(content: string): Option<int>
  {
    var read := Trim(ReadWindow(content));
    if read == "" then Some(0) else ValidateInt(read)
  }

  /**
   * atomicAdjust with the file's content replaced by the new number and its
   * expiry kept.  A missing file or content that is no integer is not
   * counted: None, and nothing changes.
   */
  function Adjusted(disk: Disk, p: string, step: int, floatText: int -> string): (r: (Option<Sum>, Disk))
    ensures r.0.None? <==> p !in disk || ReadCount(disk[p].content).None?
    ensures r.0.None? ==> r.1 == disk
    ensures r.1.Keys == disk.Keys
    ensures forall q :: q in disk && q != p ==> r.1[q] == disk[q]
    ensures p in disk ==> r.1[p].mtime == disk[p].mtime
  {
    if p !in disk then (None, disk)
    else
      match ReadCount(disk[p].content)
      case None => (None, disk)
      case Some(n) =>
        var sum := AddInts(n, step);
        (Some(sum), disk[p := disk[p].(content := SumText(sum, floatText))])
  }

  /** A decimal number that fits the read window is read back as itself. */
  lemma ReadCountOf(c: string, n: int)
    requires c == IntToString(n) && IntMin <= n <= IntMax
    ensures ReadCount(c) == Some(n)
  {
    IntToStringIsShort(n);
    IntToStringShape(n);
    TrimKeeps(c);
    ValidateIntOfIntToString(n);
  }

  /** Adjusting a number n by a step writes n + step and keeps the expiry. */
  lemma AdjustedNumber(disk: Disk, p: string, n: int, step: int, floatText: int -> string)
    requires p in disk && disk[p].content == IntToString(n)
    requires IntMin <= n <= IntMax && IntMin <= n + step <= IntMax
    ensures Adjusted(disk, p, step, floatText)
         == (Some(IntSum(n + step)), disk[p := disk[p].(content := IntToString(n + step))])
  {
    ReadCountOf(disk[p].content, n);
  }

  /** Adjusting a number by a step and back by the same step restores the file. */
  lemma IncThenDecRestores(disk: Disk, p: string, n: int, step: int, floatText: int -> string)
    requires p in disk && disk[p].content == IntToString(n)
    requires IntMin <= n <= IntMax && IntMin <= n + step <= IntMax
    ensures Adjusted(disk, p, step, floatText).0 == Some(IntSum(n + step))
    ensures Adjusted(Adjusted(disk, p, step, floatText).1, p, -step, floatText) == (Some(IntSum(n)), disk)
  {
    AdjustedNumber(disk, p, n, step, floatText);
    AdjustedBack(disk, disk[p := disk[p].(content := IntToString(n + step))], p, n, step, floatText);
  }

  /** dec by the step undoes inc by it on a number. */
  lemma AdjustedBack(disk: Disk, once: Disk, p: string, n: int, step: int, floatText: int -> string)
    requires p in disk && disk[p].content == IntToString(n)
    requires IntMin <= n <= IntMax && IntMin <= n + step <= IntMax
    requires once == disk[p := disk[p].(content := IntToString(n + step))]
    ensures Adjusted(once, p, -step, floatText) == (Some(IntSum(n)), disk)
  {
    AdjustedNumber(once, p, n + step, -step, floatText);
    assert n + step + -step == n;
    RestoreContent(disk, p, IntToString(n), IntToString(n + step));
  }

  /** An empty or blank file counts from zero: the first inc writes the step. */
  lemma BlankFileCountsFromZero(disk: Disk, p: string, step: int, floatText: int -> string)
    requires p in disk && Trim(ReadWindow(disk[p].content)) == ""
    requires IntMin <= step <= IntMax
    ensures Adjusted(disk, p, step, floatText) == (Some(IntSum(step)), disk[p := disk[p].(content := IntToString(step))])
  {
  }

  /** Two adjustments of a number add up: the intended counter keeps counting. */
  lemma CounterKeepsCounting(disk: Disk, p: string, n: int, a: int, b: int, floatText: int -> string)
    requires p in disk && disk[p].content == IntToString(n)
    requires IntMin <= n <= IntMax && IntMin <= n + a <= IntMax && IntMin <= n + a + b <= IntMax
    ensures var once := Adjusted(disk, p, a, floatText).1;
      Adjusted(once, p, b, floatText).0 == Some(IntSum(n + a + b))
  {
    AdjustedNumber(disk, p, n, a, floatText);
    var once := disk[p := disk[p].(content := IntToString(n + a))];
    AdjustedNumber(once, p, n + a, b, floatText);
  }

  // -----------------------------------------------------------------------
  // atomicAdjust as written

  /**
   * The content atomicAdjust as written leaves: fread leaves the file
   * position where the read ended, ftruncate(0) does not move it, and
   * fwrite writes the number there, so the bytes before it read back as
   * NUL.  Content that is no integer is left as it is.
   */
  function ContentAsWritten(content: string, step: int, floatText: int -> string): string
  {
    match ReadCount(content)
    case None => content
    case Some(n) => NulPad(|ReadWindow(content)|) + SumText(AddInts(n, step), floatText)
  }

  /**
   * atomicAdjust as the source writes it: the content as above, and the
   * write stamps the file's mtime, which is its expiry, with the current time.
   */
  function AdjustedAsWritten(disk: Disk, p: string, step: int, now: int, floatText: int -> string): (r: (Option<Sum>, Disk))
    ensures r.0 == Adjusted(disk, p, step, floatText).0
    ensures r.0.None? ==> r.1 == disk
    ensures r.1.Keys == disk.Keys
  {
    if p !in disk then (None, disk)
    else
      match ReadCount(disk[p].content)
      case None => (None, disk)
      case Some(n) => (Some(AddInts(n, step)), disk[p := File(ContentAsWritten(disk[p].content, step, floatText), now)])
  }

  /**
   * The write stamps the mtime: an entry stored never to expire can no
   * longer be fetched a second after it was counted.
   */
  lemma AsWrittenAdjustExpiresEntry(disk: Disk, p: string, step: int, now: int, floatText: int -> string)
    requires p in disk && disk[p].mtime == IntMax && ReadCount(disk[p].content).Some? && now < IntMax
    ensures Fetched(AdjustedAsWritten(disk, p, step, now, floatText).1, p, now + 1) == VBool(false)
    ensures Fetched(Adjusted(disk, p, step, floatText).1, p, now + 1) != VBool(false)
  {
  }

  /**
   * One adjustment as written of a NUL-padded number that fits the read
   * window: the count is right, and the content grows by the number's
   * length in NULs.
   */
  lemma AsWrittenStep(content: string, k: nat, n: int, step: int, floatText: int -> string)
    requires IntMin <= n <= IntMax && IntMin <= n + step <= IntMax
    requires content == NulPad(k) + IntToString(n) && |content| <= 1000
    ensures ReadCount(content) == Some(n)
    ensures ContentAsWritten(content, step, floatText) == NulPad(|content|) + IntToString(n + step)
  {
    var c := IntToString(n);
    IntToStringShape(n);
    TrimNulPrefix(k, c);
    ReadCountOf(c, n);
  }

  /** The content after j rounds of inc by one then dec by one, as written. */
  ghost function RoundsAsWritten(content: string, j: nat, floatText: int -> string): string
  {
    if j == 0 then content
    else ContentAsWritten(ContentAsWritten(RoundsAsWritten(content, j - 1, floatText), 1, floatText), -1, floatText)
  }

  /** Each round adds two NULs in front of the number 0. */
  lemma {:induction false} RoundsAsWrittenPad(content: string, j: nat, floatText: int -> string)
    requires 2 * j <= 1000
    requires content == IntToString(0)
    ensures RoundsAsWritten(content, j, floatText) == NulPad(2 * j) + content
  {
    if j == 0 {
      assert NulPad(0) + content == content;
    } else {
      RoundsAsWrittenPad(content, j - 1, floatText);
      var before := RoundsAsWritten(content, j - 1, floatText);
      assert IntToString(0) == "0" && IntToString(1) == "1";
      assert |before| == 2 * j - 1;
      AsWrittenStep(before, 2 * (j - 1), 0, 1, floatText);
      var once := ContentAsWritten(before, 1, floatText);
      assert |once| == 2 * j;
      AsWrittenStep(once, 2 * j - 1, 1, -1, floatText);
    }
  }

  /** Once the read window holds nothing but NULs, the count reads as 0. */
  lemma PaddedPastWindowReadsZero(t: string)
    ensures ReadCount(NulPad(1000) + t) == Some(0)
  {
    assert ReadWindow(NulPad(1000) + t) == NulPad(1000);
    TrimOfNulPad(1000);
  }

  /**
   * The counter forgets: from a file holding 0, 500 rounds of inc and dec
   * leave 1000 NULs then 0.  From then on the read window is all NULs,
   * which counts as 0: every inc returns its own step, however often it
   * is repeated, and the file keeps its length.
   */
  lemma AsWrittenCounterForgets(content: string, step: int, floatText: int -> string)
    requires content == IntToString(0)
    requires IntMin <= step <= IntMax
    ensures var stuck := RoundsAsWritten(content, 500, floatText);
      && stuck == NulPad(1000) + "0"
      && ReadCount(stuck) == Some(0)
      && ContentAsWritten(stuck, step, floatText) == NulPad(1000) + IntToString(step)
      && ReadCount(ContentAsWritten(stuck, step, floatText)) == Some(0)
  {
    RoundsAsWrittenPad(content, 500, floatText);
    var stuck := RoundsAsWritten(content, 500, floatText);
    PaddedPastWindowReadsZero("0");
    assert ReadWindow(stuck) == NulPad(1000);
    PaddedPastWindowReadsZero(IntToString(step));
  }

  // -----------------------------------------------------------------------
  // The backend object

  class LegacyBackend {
    var disk: Disk
    /** The cache directory, normalised by the constructor. */
    const path: string
    const digest: string -> string
    const structText: Value -> string
    const floatText: int -> string

    constructor(disk: Disk, dir: string, digest: string -> string, structText: Value -> string, floatText: int -> string)
      ensures this.disk == disk && path == Directory(dir)
      ensures this.digest == digest && this.structText == structText && this.floatText == floatText
    {
      this.disk := disk;
      path := RTrim(dir, '/') + "/";
      this.digest := digest;
      this.structText := structText;
      this.floatText := floatText;
    }

    function GetPath(key: string): string
    {
      PathFor(path, digest, key)
    }

    method Add(key: string, v: Value, ttl: int, now: int) returns (ok: bool)
      modifies this
      ensures (ok, disk) == Added(old(disk), GetPath(key), Payload(v, structText), ttl, now)
    {
      if GetPath(key) in disk {
        return false;
      }
      ok := Store(key, v, ttl, now);
    }

    /** file_put_contents, then touch when at least one byte was written. */
    method Store(key: string, v: Value, ttl: int, now: int) returns (ok: bool)
      modifies this
      ensures (ok, disk) == Stored(old(disk), GetPath(key), Payload(v, structText), ttl, now)
    {
      var file := GetPath(key);
      var data := Payload(v, structText);
      disk := disk[file := File(data, now)];
      var written := ByteLength(data);
      if written == 0 {
        return false;
      }
      var mtime := if ttl == 0 then IntMax else now + ttl;
      disk := disk[file := disk[file].(mtime := mtime)];
      assert disk == old(disk)[file := File(data, MtimeFor(ttl, now))];
      ok := true;
    }

    /** store() as the source writes it: touch(time() + ttl), so ttl 0 expires at once. */
    method StoreAsWritten(key: string, v: Value, ttl: int, now: int) returns (ok: bool)
      modifies this
      ensures (ok, disk) == StoredAsWritten(old(disk), GetPath(key), Payload(v, structText), ttl, now)
    {
      var file := GetPath(key);
      var data := Payload(v, structText);
      disk := disk[file := File(data, now)];
      var written := ByteLength(data);
      if written == 0 {
        return false;
      }
      disk := disk[file := disk[file].(mtime := now + ttl)];
      assert disk == old(disk)[file := File(data, now + ttl)];
      ok := true;
    }

    /** file_exists: expired files count. */
    method Exists(key: string) returns (b: bool)
      ensures b <==> GetPath(key) in disk
    {
      b := GetPath(key) in disk;
    }

    /**
     * successIn is the caller's by-reference flag on entry and success its
     * value on return: a miss sets it to false, a hit leaves it alone.
     */
    method Fetch(key: string, now: int, successIn: bool) returns (v: Value, success: bool)
      ensures v == Fetched(disk, GetPath(key), now)
      ensures var file := GetPath(key);
        file !in disk || disk[file].mtime < now ==> v == VBool(false) && !success
      ensures var file := GetPath(key);
        file in disk && disk[file].mtime >= now ==> success == successIn
    {
      success := successIn;
      var file := GetPath(key);
      if file !in disk || disk[file].mtime < now {
        success := false;
        return VBool(false), success;
      }
      v := VStr(disk[file].content);
    }

    /** Locking is one atomic step here; success is set to false and never to true. */
    method AtomicAdjust(file: string, step: int) returns (r: Option<Sum>, success: bool)
      modifies this
      ensures !success
      ensures (r, disk) == Adjusted(old(disk), file, step, floatText)
    {
      success := false;
      if file !in disk {
        return None, success;
      }
      var value := Trim(ReadWindow(disk[file].content));
      var n := if value == "" then Some(0) else ValidateInt(value);
      if n.None? {
        return None, success;
      }
      var sum := AddInts(n.value, step);
      disk := disk[file := disk[file].(content := SumText(sum, floatText))];
      r := Some(sum);
    }

    /**
     * atomicAdjust as the source writes it: fwrite writes where fread
     * stopped, so the gap left by ftruncate reads back as NULs, and the
     * write stamps the mtime with the current time.
     */
    method AtomicAdjustAsWritten(file: string, step: int, now: int) returns (r: Option<Sum>, success: bool)
      modifies this
      ensures !success
      ensures (r, disk) == AdjustedAsWritten(old(disk), file, step, now, floatText)
    {
      success := false;
      if file !in disk {
        return None, success;
      }
      var window := ReadWindow(disk[file].content);
      var value := Trim(window);
      var n := if value == "" then Some(0) else ValidateInt(value);
      if n.None? {
        return None, success;
      }
      var sum := AddInts(n.value, step);
      disk := disk[file := File(NulPad(|window|) + SumText(sum, floatText), now)];
      r := Some(sum);
    }

    method Inc(key: string, step: int) returns (r: Option<Sum>, success: bool)
      modifies this
      ensures !success
      ensures (r, disk) == Adjusted(old(disk), GetPath(key), step, floatText)
    {
      r, success := AtomicAdjust(GetPath(key), step);
    }

    method Dec(key: string, step: int) returns (r: Option<Sum>, success: bool)
      modifies this
      ensures !success
      ensures (r, disk) == Adjusted(old(disk), GetPath(key), -step, floatText)
    {
      r, success := AtomicAdjust(GetPath(key), -step);
    }

    method Delete(key: string) returns (ok: bool)
      modifies this
      ensures (ok, disk) == Deleted(old(disk), GetPath(key))
    {
      var file := GetPath(key);
      ok := file in disk;
      disk := disk - {file};
    }
  }
}
