/**
 * The facade (lib/TreasureChest/Instance.php).  It keeps an optional
 * prefix and a delimiter, rewrites the key of every keyed operation to
 * mapper.parse(prefix + delimiter + key) (the prefix only when it is
 * truthy), and hands the call to the backend.  clear() takes no key and is
 * passed through untouched.
 */
module Facade {
  import opened Php
  import opened Faux
  import opened KeyMapping

  /** The key the facade hands to the mapper. */
  function PrefixedKey(prefix: string, delimiter: string, key: string): string
  {
    if Truthy(prefix) then prefix + delimiter + key else key
  }

  /**
   * The prefix rule: a truthy prefix is put in front with the delimiter; an
   * empty prefix, and the prefix "0", leave the key as it is.  Either way
   * the caller's key ends the result.
   */
  lemma PrefixRule(prefix: string, delimiter: string, key: string)
    ensures var r := PrefixedKey(prefix, delimiter, key);
      && |r| >= |key| && r[|r| - |key|..] == key
      && (prefix == "" || prefix == "0" ==> r == key)
      && (prefix != "" && prefix != "0" ==> r[..|prefix| + |delimiter|] == prefix + delimiter)
  {
    var r := PrefixedKey(prefix, delimiter, key);
    if Truthy(prefix) {
      assert r == (prefix + delimiter) + key;
    }
  }

  lemma {:induction false} ExplodeAfterSegment(p: string, d: char, key: string)
    requires d !in p
    ensures Explode(p + [d] + key, d) == [p] + Explode(key, d)
    decreases |p|
  {
    if p == [] {
      assert [d] + key == [d] + key;
      assert ([d] + key)[1..] == key;
    } else {
      assert (p + [d] + key)[1..] == p[1..] + [d] + key;
      ExplodeAfterSegment(p[1..], d, key);
      assert [p[0]] + p[1..] == p;
    }
  }

  /**
   * A truthy prefix without the delimiter becomes the outermost namespace:
   * it is the first namespace path of every prefixed key, so invalidating
   * the prefix invalidates every key the facade stores.
   */
  lemma PrefixIsOutermostNamespace(prefix: string, d: char, key: string)
    requires Truthy(prefix) && d !in prefix
    ensures var full := PrefixedKey(prefix, [d], key);
      d in full && |Namespaces(full, d)| >= 1 && Paths(Namespaces(full, d), d)[0] == prefix
  {
    var full := PrefixedKey(prefix, [d], key);
    ExplodeAfterSegment(prefix, d, key);
    assert full[|prefix|] == d;
    var ns := Namespaces(full, d);
    assert ns[0] == prefix;
    assert ns[..1] == [prefix];
  }

  /**
   * With a truthy prefix even the empty namespace is accepted by
   * invalidate(): the mapper sees prefix + delimiter, which is truthy.
   */
  lemma PrefixedEmptyNamespaceIsInvalidated(st: MapperState, prefix: string, d: char, now: int)
    requires Truthy(prefix)
    ensures Invalidated(st, d, PrefixedKey(prefix, [d], ""), now).0
  {
    assert PrefixedKey(prefix, [d], "") == prefix + [d];
  }

  class Instance {
    var delimiter: string
    var prefix: string
    var mapper: KeyMapper
    const cache: FauxCache

    /** The mapper's own delimiter is always a valid one. */
    ghost predicate Valid()
      reads this, mapper`delimiter
    {
      mapper.Valid()
    }

    /** The backend map the keyed operation acts on, once parse has run. */
    ghost function BackendAfterParse(parsed: Data, own: Data): Data
      reads this
    {
      if mapper.cache == cache then parsed else own
    }

    constructor(cache: FauxCache)
      ensures Valid() && delimiter == ":" && prefix == "" && this.cache == cache
      ensures fresh(mapper) && mapper.cache == cache && mapper.delimiter == ":" && mapper.index == map[]
    {
      this.cache := cache;
      delimiter := ":";
      prefix := "";
      mapper := new KeyMapper(cache, ":");
    }

    method SetPrefix(prefix: string)
      modifies this`prefix
      ensures this.prefix == prefix
    {
      this.prefix := prefix;
    }

    /**
     * The facade's delimiter is assigned first, then forwarded; when the
     * mapper rejects it (false) the facade keeps the rejected delimiter.
     */
    method SetDelimiter(delimiter: string) returns (ok: bool)
      requires Valid()
      modifies this`delimiter, mapper`delimiter
      ensures Valid() && this.delimiter == delimiter
      ensures ok == (ByteLength(delimiter) == 1)
      ensures mapper.delimiter == if ok then delimiter else old(mapper.delimiter)
    {
      this.delimiter := delimiter;
      ok := mapper.SetDelimiter(delimiter);
    }

    /** The new mapper receives the facade's current delimiter; false if it rejects it. */
    method SetMapper(m: KeyMapper) returns (ok: bool)
      requires m.Valid()
      modifies this`mapper, m`delimiter
      ensures Valid() && mapper == m
      ensures ok == (ByteLength(delimiter) == 1)
      ensures m.delimiter == if ok then delimiter else old(m.delimiter)
    {
      mapper := m;
      ok := mapper.SetDelimiter(delimiter);
    }

    /** The key rewriting of callCacheMethod: prefix, then parse. */
    method MapKey(key: string, now: int) returns (k: string)
      requires Valid()
      modifies mapper`index, mapper.cache
      ensures var p := ParseKey(old(mapper.State()), mapper.Delimiter(), PrefixedKey(prefix, delimiter, key), now);
        k == p.key && mapper.State() == p.st
    {
      var full := key;
      if prefix != "" && prefix != "0" {
        full := prefix + delimiter + key;
      }
      k := mapper.Parse(full, now);
    }

    method Add(key: string, v: Value, ttl: int, now: int) returns (ok: bool)
      requires Valid()
      modifies mapper`index, mapper.cache, cache
      ensures var p := ParseKey(old(mapper.State()), mapper.Delimiter(), PrefixedKey(prefix, delimiter, key), now);
        var base := BackendAfterParse(p.st.data, old(cache.data));
        && mapper.index == p.st.index
        && (mapper.cache != cache ==> mapper.cache.data == p.st.data)
        && ok == AddSucceeds(base, p.key)
        && cache.data == Added(base, p.key, v, ttl, now)
    {
      var k := MapKey(key, now);
      ok := cache.Add(k, v, ttl, now);
    }

    method Store(key: string, v: Value, ttl: int, now: int) returns (ok: bool)
      requires Valid()
      modifies mapper`index, mapper.cache, cache
      ensures var p := ParseKey(old(mapper.State()), mapper.Delimiter(), PrefixedKey(prefix, delimiter, key), now);
        var base := BackendAfterParse(p.st.data, old(cache.data));
        && mapper.index == p.st.index
        && (mapper.cache != cache ==> mapper.cache.data == p.st.data)
        && ok
        && cache.data == Stored(base, p.key, v, ttl, now)
    {
      var k := MapKey(key, now);
      ok := cache.Store(k, v, ttl, now);
    }

    method Replace(key: string, v: Value, ttl: int, now: int) returns (ok: bool)
      requires Valid()
      modifies mapper`index, mapper.cache, cache
      ensures var p := ParseKey(old(mapper.State()), mapper.Delimiter(), PrefixedKey(prefix, delimiter, key), now);
        var base := BackendAfterParse(p.st.data, old(cache.data));
        && mapper.index == p.st.index
        && (mapper.cache != cache ==> mapper.cache.data == p.st.data)
        && ok == Live(base, p.key, now)
        && cache.data == Replaced(base, p.key, v, ttl, now)
    {
      var k := MapKey(key, now);
      ok := cache.Replace(k, v, ttl, now);
    }

    method Exists(key: string, now: int) returns (b: bool)
      requires Valid()
      modifies mapper`index, mapper.cache
      ensures var p := ParseKey(old(mapper.State()), mapper.Delimiter(), PrefixedKey(prefix, delimiter, key), now);
        && mapper.State() == p.st
        && b == Live(cache.data, p.key, now)
    {
      var k := MapKey(key, now);
      b := cache.Exists(k, now);
    }

    /** The by-reference success flag is copied by func_get_args, so the caller's flag is never set. */
    method Fetch(key: string, now: int) returns (v: Value)
      requires Valid()
      modifies mapper`index, mapper.cache
      ensures var p := ParseKey(old(mapper.State()), mapper.Delimiter(), PrefixedKey(prefix, delimiter, key), now);
        && mapper.State() == p.st
        && v == Fetched(cache.data, p.key, now)
    {
      var k := MapKey(key, now);
      var flag;
      v, flag := cache.Fetch(k, now, false);
    }

    method Inc(key: string, step: int, now: int) returns (r: int)
      requires Valid()
      modifies mapper`index, mapper.cache, cache
      ensures var p := ParseKey(old(mapper.State()), mapper.Delimiter(), PrefixedKey(prefix, delimiter, key), now);
        var base := BackendAfterParse(p.st.data, old(cache.data));
        && mapper.index == p.st.index
        && (mapper.cache != cache ==> mapper.cache.data == p.st.data)
        && r == AdjustedValue(base, p.key, step, now)
        && cache.data == Adjusted(base, p.key, step, now)
    {
      var k := MapKey(key, now);
      var flag;
      r, flag := cache.Inc(k, step, now);
    }

    method Dec(key: string, step: int, now: int) returns (r: int)
      requires Valid()
      modifies mapper`index, mapper.cache, cache
      ensures var p := ParseKey(old(mapper.State()), mapper.Delimiter(), PrefixedKey(prefix, delimiter, key), now);
        var base := BackendAfterParse(p.st.data, old(cache.data));
        && mapper.index == p.st.index
        && (mapper.cache != cache ==> mapper.cache.data == p.st.data)
        && r == AdjustedValue(base, p.key, -step, now)
        && cache.data == Adjusted(base, p.key, -step, now)
    {
      var k := MapKey(key, now);
      var flag;
      r, flag := cache.Dec(k, step, now);
    }

    method Delete(key: string, now: int) returns (ok: bool)
      requires Valid()
      modifies mapper`index, mapper.cache, cache
      ensures var p := ParseKey(old(mapper.State()), mapper.Delimiter(), PrefixedKey(prefix, delimiter, key), now);
        var base := BackendAfterParse(p.st.data, old(cache.data));
        && mapper.index == p.st.index
        && (mapper.cache != cache ==> mapper.cache.data == p.st.data)
        && ok == Live(base, p.key, now)
        && cache.data == Deleted(base, p.key, now)
    {
      var k := MapKey(key, now);
      ok := cache.Delete(k, now);
    }

    /** clear() has no key: nothing is rewritten and the mapper is not consulted. */
    method Clear() returns (ok: bool)
      modifies cache
      ensures ok && cache.data == map[]
    {
      ok := cache.Clear();
    }

    /** invalidate applies the same prefix rule and returns the mapper's answer. */
    method Invalidate(ns: string, now: int) returns (ok: bool)
      requires Valid()
      modifies mapper`index, mapper.cache
      ensures (ok, mapper.State()) == Invalidated(old(mapper.State()), mapper.Delimiter(), PrefixedKey(prefix, delimiter, ns), now)
    {
      var namespace := ns;
      if prefix != "" && prefix != "0" {
        namespace := prefix + delimiter + ns;
      }
      ok := mapper.Invalidate(namespace, now);
    }
  }
}
