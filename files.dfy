/**
 * The file system as both file backends see it: a map from path to a file,
 * a file being its content and its modification time.  The backends use
 * the modification time as the expiry of the entry.
 */
module Files {
  import opened Php

  datatype File = File(content: string, mtime: int)

  type Disk = map<string, File>

  /**
   * rtrim($dir, '/') . '/': the directory with exactly one trailing slash,
   * whatever number of slashes it was given with.
   */
  function Directory(dir: string): (r: string)
    ensures |r| >= 1 && r[|r| - 1] == '/'
    ensures |r| == 1 || r[|r| - 2] != '/'
    ensures |r| - 1 <= |dir| && r[..|r| - 1] == dir[..|r| - 1]
    ensures forall k :: |r| - 1 <= k < |dir| ==> dir[k] == '/'
  {
    RTrim(dir, '/') + "/"
  }

  /** Normalising a normalised directory changes nothing. */
  lemma DirectoryIsIdempotent(dir: string)
    ensures Directory(Directory(dir)) == Directory(dir)
  {
    var t := RTrim(dir, '/');
    var r := t + "/";
    assert r[..|r| - 1] == t;
    assert RTrim(r, '/') == RTrim(t, '/');
  }

  /** Directories that differ only in trailing slashes are the same directory. */
  lemma {:induction false} TrailingSlashesDoNotMatter(dir: string, n: nat)
    ensures Directory(dir + seq(n, _ => '/')) == Directory(dir)
    decreases n
  {
    var longer := dir + seq(n, _ => '/');
    if n == 0 {
      assert longer == dir;
    } else {
      var shorter := dir + seq(n - 1, _ => '/');
      assert longer[|longer| - 1] == '/';
      assert longer[..|longer| - 1] == shorter;
      assert RTrim(longer, '/') == RTrim(shorter, '/');
      TrailingSlashesDoNotMatter(dir, n - 1);
    }
  }

  /** n NUL bytes: what a write past the end of a truncated file leaves before the data. */
  function NulPad(n: nat): (r: string)
    ensures |r| == n && forall k :: 0 <= k < n ==> r[k] == '\0'
  {
    seq(n, _ => '\0')
  }

  /** fread($fp, 1000) from the start of the file. */
  function ReadWindow(content: string): (r: string)
    ensures |r| == if |content| <= 1000 then |content| else 1000
    ensures r == content[..|r|]
  {
    if |content| <= 1000 then content else content[..1000]
  }

  /** trim() removes NUL padding in front of text that does not start or end with a trimmed character. */
  lemma {:induction false} TrimNulPrefix(n: nat, t: string)
    requires t != [] && !IsTrimmed(t[0]) && !IsTrimmed(t[|t| - 1])
    ensures Trim(NulPad(n) + t) == t
    decreases n
  {
    if n == 0 {
      assert NulPad(0) + t == t;
      TrimKeeps(t);
    } else {
      assert (NulPad(n) + t)[1..] == NulPad(n - 1) + t;
      TrimNulPrefix(n - 1, t);
      assert TrimLeft(NulPad(n) + t) == TrimLeft(NulPad(n - 1) + t);
    }
  }

  /**
   * The mtime store() gives a file: PHP_INT_MAX for ttl 0, so that the
   * entry never expires, otherwise now + ttl.
   */
  function MtimeFor(ttl: int, now: int): int
  {
    if ttl == 0 then IntMax else now + ttl
  }

  /** delete() in both backends: unlink reports whether the file was there, expired or not, and removes it. */
  function Deleted(disk: Disk, p: string): (r: (bool, Disk))
    ensures r.0 <==> p in disk
    ensures r.1.Keys == disk.Keys - {p}
    ensures forall q :: q in r.1 ==> r.1[q] == disk[q]
  {
    (p in disk, disk - {p})
  }

  /** Writing a file's old content back over a rewrite restores the disk. */
  lemma RestoreContent(disk: Disk, p: string, c: string, x: string)
    requires p in disk && disk[p].content == c
    ensures var once := disk[p := disk[p].(content := x)];
      once[p := once[p].(content := c)] == disk
  {
    var once := disk[p := disk[p].(content := x)];
    assert once[p].(content := c) == disk[p];
  }

  /** trim() leaves nothing of a run of NULs. */
  lemma {:induction false} TrimOfNulPad(n: nat)
    ensures Trim(NulPad(n)) == []
    decreases n
  {
    if n > 0 {
      assert NulPad(n)[1..] == NulPad(n - 1);
      TrimOfNulPad(n - 1);
      TrimLeftStrips(NulPad(n - 1));
    }
  }
}
