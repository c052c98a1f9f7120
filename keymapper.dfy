/**
 * The hierarchical namespace-versioning key mapper
 * (lib/TreasureChest/KeyMapper.php).  A key `a:b:leaf` has the namespace
 * paths `a` and `a:b`; each path has a version counter in the backend, and
 * the key the backend sees is the versions joined by the delimiter,
 * then the delimiter, then the original key.  Versions are memoised in an
 * index that invalidate() wipes.
 *
 * The pure functions state what parse, getVersionNumber, getNamespaceKey
 * and invalidate compute from the index and the backend's map (the backend
 * is the in-memory store of module Faux); the class KeyMapper does the same
 * in place and is proved against them.
 */
module KeyMapping {
  import opened Php
  import opened Faux

  /** The prefix of every version-counter key. */
  const CounterPrefix: string := "ns"

  /** getVersionKey: the backend key that holds the counter of a namespace path. */
  function VersionKey(d: char, ns: string): string
  {
    CounterPrefix + [d] + "version" + [d] + ns
  }

  /** Distinct namespace paths have distinct counters. */
  lemma VersionKeyInjective(d: char, a: string, b: string)
    requires VersionKey(d, a) == VersionKey(d, b)
    ensures a == b
  {
    var n := |CounterPrefix + [d] + "version" + [d]|;
    assert VersionKey(d, a)[n..] == a;
    assert VersionKey(d, b)[n..] == b;
  }

  /** The namespace segments of a key: all that explode() yields but the last. */
  function Namespaces(key: string, d: char): seq<string>
  {
    var parts := Explode(key, d);
    parts[..|parts| - 1]
  }

  /** The leaf: the last segment of a key. */
  function Leaf(key: string, d: char): string
  {
    var parts := Explode(key, d);
    parts[|parts| - 1]
  }

  /** The namespace paths: path i is the first i + 1 segments joined by the delimiter. */
  function Paths(namespaces: seq<string>, d: char): (r: seq<string>)
    ensures |r| == |namespaces|
  {
    seq(|namespaces|, i requires 0 <= i < |namespaces| => Implode(namespaces[..i + 1], d))
  }

  predicate Distinct(paths: seq<string>)
  {
    forall i, j :: 0 <= i < j < |paths| ==> paths[i] != paths[j]
  }

  /** The index (namespace path to version) and the backend's map. */
  datatype MapperState = MapperState(index: map<string, Value>, data: Data)

  /** isset($this->index[$ns]): a path with a null version counts as absent. */
  predicate Memoised(index: map<string, Value>, ns: string)
  {
    ns in index && index[ns] != VNull
  }

  /** The version a fresh resolution of a path finds: the counter, or 0 when fetch misses. */
  function Counter(data: Data, d: char, ns: string, now: int): Value
  {
    var fetched := Fetched(data, VersionKey(d, ns), now);
    if fetched == VBool(false) then VInt(0) else fetched
  }

  /** getVersionNumber(ns): the version of one path and the state it leaves. */
  function VersionNumber(st: MapperState, d: char, ns: string, now: int): (Value, MapperState)
  {
    if Memoised(st.index, ns) then (st.index[ns], st)
    else
      var vk := VersionKey(d, ns);
      var fetched := Fetched(st.data, vk, now);
      if fetched == VBool(false) then
        (VInt(0), MapperState(st.index[ns := VInt(0)], Added(st.data, vk, VInt(0), 0, now)))
      else
        (fetched, MapperState(st.index[ns := fetched], st.data))
  }

  datatype Resolution = Resolution(versions: seq<Value>, st: MapperState)

  /** The versions the loop of getNamespaceKey gathers for the paths, in order. */
  function VersionsOf(st: MapperState, d: char, paths: seq<string>, now: int): (r: Resolution)
    ensures |r.versions| == |paths|
    decreases |paths|
  {
    if paths == [] then Resolution([], st)
    else
      var prev := VersionsOf(st, d, paths[..|paths| - 1], now);
      var step := VersionNumber(prev.st, d, paths[|paths| - 1], now);
      Resolution(prev.versions + [step.0], step.1)
  }

  /** The text implode() makes of each version. */
  function Texts(versions: seq<Value>): (r: seq<string>)
    ensures |r| == |versions|
  {
    seq(|versions|, i requires 0 <= i < |versions| => ToText(versions[i]))
  }

  datatype Parsed = Parsed(key: string, versions: seq<Value>, st: MapperState)

  /** getNamespaceKey(namespaces, leaf) */
  function NamespaceKey(st: MapperState, d: char, namespaces: seq<string>, leaf: string, now: int): Parsed
  {
    if namespaces == [] then Parsed(leaf, [], st)
    else
      var r := VersionsOf(st, d, Paths(namespaces, d), now);
      Parsed(Implode(Texts(r.versions), d) + [d] + Implode(namespaces, d) + [d] + leaf, r.versions, r.st)
  }

  /** parse(key) */
  function ParseKey(st: MapperState, d: char, key: string, now: int): Parsed
  {
    if d !in key then Parsed(key, [], st)
    else NamespaceKey(st, d, Namespaces(key, d), Leaf(key, d), now)
  }

  /** invalidate(ns): whether it reports success, and the state it leaves. */
  function Invalidated(st: MapperState, d: char, ns: string, now: int): (bool, MapperState)
  {
    if !Truthy(ns) then (false, st)
    else
      var vk := VersionKey(d, ns);
      if Live(st.data, vk, now) then (true, MapperState(map[], Adjusted(st.data, vk, 1, now)))
      else (true, MapperState(map[], Stored(st.data, vk, VInt(1), 0, now)))
  }

  /** Two maps agree at one key. */
  predicate SameAt<V(==)>(m: map<string, V>, m': map<string, V>, k: string)
  {
    (k in m <==> k in m') && (k in m ==> m[k] == m'[k])
  }

  // -----------------------------------------------------------------------
  // The shape of a mapped key

  /** A key without the delimiter passes through and nothing is touched. */
  lemma FlatKeyPassesThrough(st: MapperState, d: char, key: string, now: int)
    requires d !in key
    ensures ParseKey(st, d, key, now) == Parsed(key, [], st)
  {
  }

  /** The segments of a key with a delimiter: at least one namespace, and they rebuild the key. */
  lemma {:induction false} SegmentsRebuildKey(key: string, d: char)
    requires d in key
    ensures |Namespaces(key, d)| == Count(key, d) >= 1
    ensures Implode(Namespaces(key, d), d) + [d] + Leaf(key, d) == key
  {
    var parts := Explode(key, d);
    CountIsZero(key, d);
    ImplodeExplode(key, d);
    assert parts == Namespaces(key, d) + [Leaf(key, d)];
    ImplodeSnoc(Namespaces(key, d), Leaf(key, d), d);
  }

  /**
   * With n >= 1 delimiters the mapped key is n versions joined by the
   * delimiter, the delimiter, then the original key verbatim.
   */
  lemma {:induction false} MappedKeyShape(st: MapperState, d: char, key: string, now: int)
    requires d in key
    ensures var p := ParseKey(st, d, key, now);
      && |p.versions| == Count(key, d) >= 1
      && p.key == Implode(Texts(p.versions), d) + [d] + key
      && p.key[|p.key| - |key|..] == key
  {
    SegmentsRebuildKey(key, d);
    var ns := Namespaces(key, d);
    var p := ParseKey(st, d, key, now);
    var a := Implode(Texts(p.versions), d);
    assert p.key == a + [d] + Implode(ns, d) + [d] + Leaf(key, d);
    assert p.key == (a + [d]) + (Implode(ns, d) + [d] + Leaf(key, d));
  }

  // -----------------------------------------------------------------------
  // Namespace paths

  lemma {:induction false} PathsGrow(ns: seq<string>, d: char, j: nat)
    requires 0 < j < |ns|
    ensures |Paths(ns, d)[j - 1]| < |Paths(ns, d)[j]|
  {
    assert ns[..j + 1] == ns[..j] + [ns[j]];
    ImplodeSnoc(ns[..j], ns[j], d);
  }

  lemma {:induction false} PathsLonger(ns: seq<string>, d: char, i: nat, j: nat)
    requires i < j < |ns|
    ensures |Paths(ns, d)[i]| < |Paths(ns, d)[j]|
    decreases j - i
  {
    PathsGrow(ns, d, j);
    if i < j - 1 {
      PathsLonger(ns, d, i, j - 1);
    }
  }

  /** The paths of a key are pairwise distinct: each is longer than the one before. */
  lemma PathsDistinct(ns: seq<string>, d: char)
    ensures Distinct(Paths(ns, d))
  {
    forall i, j | 0 <= i < j < |ns|
      ensures Paths(ns, d)[i] != Paths(ns, d)[j]
    {
      PathsLonger(ns, d, i, j);
    }
  }

  // -----------------------------------------------------------------------
  // Version resolution

  /** Resolving the paths changes the index at those paths only. */
  lemma {:induction false} VersionsOfIndexFrame(st: MapperState, d: char, paths: seq<string>, now: int, q: string)
    requires q !in paths
    ensures SameAt(VersionsOf(st, d, paths, now).st.index, st.index, q)
    decreases |paths|
  {
    if paths != [] {
      var n := |paths| - 1;
      assert q !in paths[..n];
      VersionsOfIndexFrame(st, d, paths[..n], now, q);
    }
  }

  /** Resolving the paths changes the backend at their counter keys only. */
  lemma {:induction false} VersionsOfDataFrame(st: MapperState, d: char, paths: seq<string>, now: int, k: string)
    requires forall i :: 0 <= i < |paths| ==> VersionKey(d, paths[i]) != k
    ensures SameAt(VersionsOf(st, d, paths, now).st.data, st.data, k)
    decreases |paths|
  {
    if paths != [] {
      var n := |paths| - 1;
      assert VersionKey(d, paths[n]) != k;
      VersionsOfDataFrame(st, d, paths[..n], now, k);
    }
  }

  /** After resolution, path i is in the index with exactly the i-th version. */
  lemma {:induction false} VersionsAreIndexed(st: MapperState, d: char, paths: seq<string>, now: int)
    requires Distinct(paths)
    ensures var r := VersionsOf(st, d, paths, now);
      forall i :: 0 <= i < |paths| ==> paths[i] in r.st.index && r.st.index[paths[i]] == r.versions[i]
    decreases |paths|
  {
    if paths != [] {
      var n := |paths| - 1;
      VersionsAreIndexed(st, d, paths[..n], now);
    }
  }

  /** When every path is memoised, resolution reads the index and touches nothing. */
  lemma {:induction false} MemoisedPathsResolveFromIndex(st: MapperState, d: char, paths: seq<string>, now: int)
    requires forall i :: 0 <= i < |paths| ==> Memoised(st.index, paths[i])
    ensures var r := VersionsOf(st, d, paths, now);
      && r.st == st
      && forall i :: 0 <= i < |paths| ==> paths[i] in st.index && r.versions[i] == st.index[paths[i]]
    decreases |paths|
  {
    if paths != [] {
      var n := |paths| - 1;
      MemoisedPathsResolveFromIndex(st, d, paths[..n], now);
    }
  }

  /** When no path is memoised, version i is the backend's counter of path i (0 on a miss). */
  lemma {:induction false} FreshPathsResolveToCounters(st: MapperState, d: char, paths: seq<string>, now: int)
    requires Distinct(paths)
    requires forall i :: 0 <= i < |paths| ==> !Memoised(st.index, paths[i])
    ensures var r := VersionsOf(st, d, paths, now);
      forall i :: 0 <= i < |paths| ==> r.versions[i] == Counter(st.data, d, paths[i], now)
    decreases |paths|
  {
    if paths != [] {
      var n := |paths| - 1;
      var p := paths[n];
      FreshPathsResolveToCounters(st, d, paths[..n], now);
      var prev := VersionsOf(st, d, paths[..n], now);
      VersionsOfIndexFrame(st, d, paths[..n], now, p);
      forall i | 0 <= i < n
        ensures VersionKey(d, paths[..n][i]) != VersionKey(d, p)
      {
        if VersionKey(d, paths[i]) == VersionKey(d, p) {
          VersionKeyInjective(d, paths[i], p);
        }
      }
      VersionsOfDataFrame(st, d, paths[..n], now, VersionKey(d, p));
      assert Counter(prev.st.data, d, p, now) == Counter(st.data, d, p, now);
    }
  }

  /** The i-th version of a mapped key is the one the index now holds for the i-th path. */
  lemma MappedVersionsAreIndexed(st: MapperState, d: char, key: string, now: int)
    requires d in key
    ensures var p := ParseKey(st, d, key, now);
      var paths := Paths(Namespaces(key, d), d);
      forall i :: 0 <= i < |paths| ==> paths[i] in p.st.index && p.st.index[paths[i]] == p.versions[i]
  {
    SegmentsRebuildKey(key, d);
    PathsDistinct(Namespaces(key, d), d);
    VersionsAreIndexed(st, d, Paths(Namespaces(key, d), d), now);
  }

  /** A memoised path keeps its version through any resolution: getVersionNumber only fills gaps. */
  lemma {:induction false} MemoisedSurvives(st: MapperState, d: char, paths: seq<string>, now: int, q: string)
    requires Memoised(st.index, q)
    ensures var r := VersionsOf(st, d, paths, now);
      q in r.st.index && r.st.index[q] == st.index[q]
    decreases |paths|
  {
    if paths != [] {
      MemoisedSurvives(st, d, paths[..|paths| - 1], now, q);
    }
  }

  /** Parsing any key keeps every memoised version of the index. */
  lemma ParseKeepsMemoised(st: MapperState, d: char, key: string, now: int, q: string)
    requires Memoised(st.index, q)
    ensures var p := ParseKey(st, d, key, now);
      q in p.st.index && p.st.index[q] == st.index[q]
  {
    if d in key {
      MemoisedSurvives(st, d, Paths(Namespaces(key, d), d), now, q);
    }
  }

  /**
   * Memoisation: once parse has recorded non-null versions for a key's
   * paths, parsing the key from any state whose index still holds those
   * versions gives the same mapped key and touches nothing, whatever the
   * backend holds and whenever it is asked.
   */
  lemma ParseIsStable(st: MapperState, d: char, key: string, now: int, st': MapperState, now': int)
    requires d in key
    requires forall i :: 0 <= i < |ParseKey(st, d, key, now).versions| ==> ParseKey(st, d, key, now).versions[i] != VNull
    requires forall q :: q in Paths(Namespaces(key, d), d) ==> SameAt(st'.index, ParseKey(st, d, key, now).st.index, q)
    ensures var p := ParseKey(st, d, key, now);
      ParseKey(st', d, key, now') == Parsed(p.key, p.versions, st')
  {
    SegmentsRebuildKey(key, d);
    var paths := Paths(Namespaces(key, d), d);
    var p := ParseKey(st, d, key, now);
    MappedVersionsAreIndexed(st, d, key, now);
    forall i | 0 <= i < |paths|
      ensures Memoised(st'.index, paths[i]) && st'.index[paths[i]] == p.versions[i]
    {
      assert SameAt(st'.index, p.st.index, paths[i]);
    }
    MemoisedPathsResolveFromIndex(st', d, paths, now');
    var q := ParseKey(st', d, key, now');
    assert |q.versions| == |paths| == |p.versions|;
    assert q.versions == p.versions;
  }

  /** The state after parsing each key in turn, key i at time times[i]. */
  function ParseAll(st: MapperState, d: char, keys: seq<string>, times: seq<int>): MapperState
    requires |times| == |keys|
    decreases |keys|
  {
    if keys == [] then st
    else ParseAll(ParseKey(st, d, keys[0], times[0]).st, d, keys[1..], times[1..])
  }

  /** Any run of parses keeps every memoised version. */
  lemma {:induction false} ParseAllKeepsMemoised(st: MapperState, d: char, keys: seq<string>, times: seq<int>, q: string)
    requires |times| == |keys| && Memoised(st.index, q)
    ensures var r := ParseAll(st, d, keys, times);
      q in r.index && r.index[q] == st.index[q]
    decreases |keys|
  {
    if keys != [] {
      ParseKeepsMemoised(st, d, keys[0], times[0], q);
      ParseAllKeepsMemoised(ParseKey(st, d, keys[0], times[0]).st, d, keys[1..], times[1..], q);
    }
  }

  /**
   * Until invalidate() wipes the index: parse a key, then any other keys,
   * then the key again, and it maps to the same key as the first time.
   */
  lemma StableAcrossParses(st: MapperState, d: char, key: string, now: int,
                           keys: seq<string>, times: seq<int>, now': int)
    requires d in key && |times| == |keys|
    requires forall i :: 0 <= i < |ParseKey(st, d, key, now).versions| ==> ParseKey(st, d, key, now).versions[i] != VNull
    ensures var p := ParseKey(st, d, key, now);
      var later := ParseAll(p.st, d, keys, times);
      ParseKey(later, d, key, now') == Parsed(p.key, p.versions, later)
  {
    SegmentsRebuildKey(key, d);
    var paths := Paths(Namespaces(key, d), d);
    var p := ParseKey(st, d, key, now);
    var later := ParseAll(p.st, d, keys, times);
    MappedVersionsAreIndexed(st, d, key, now);
    forall q | q in paths
      ensures SameAt(later.index, p.st.index, q)
    {
      var i :| 0 <= i < |paths| && paths[i] == q;
      ParseAllKeepsMemoised(p.st, d, keys, times, q);
    }
    ParseIsStable(st, d, key, now, later, now');
  }

  /** With an empty index, the versions of a key are the backend's counters of its paths. */
  lemma FreshParseReadsCounters(data: Data, d: char, key: string, now: int)
    requires d in key
    ensures var p := ParseKey(MapperState(map[], data), d, key, now);
      var paths := Paths(Namespaces(key, d), d);
      forall i :: 0 <= i < |paths| ==> p.versions[i] == Counter(data, d, paths[i], now)
  {
    SegmentsRebuildKey(key, d);
    PathsDistinct(Namespaces(key, d), d);
    FreshPathsResolveToCounters(MapperState(map[], data), d, Paths(Namespaces(key, d), d), now);
  }

  // -----------------------------------------------------------------------
  // Invalidation

  /**
   * invalidate(ns) fails and changes nothing for a falsy namespace ("" and
   * "0"); otherwise it succeeds, empties the index and changes no backend
   * key except the namespace's counter.
   */
  lemma InvalidateTouchesOnlyItsCounter(st: MapperState, d: char, ns: string, now: int, k: string)
    ensures var (ok, st') := Invalidated(st, d, ns, now);
      && ok == (ns != "" && ns != "0")
      && (!ok ==> st' == st)
      && (ok ==> st'.index == map[] && VersionKey(d, ns) in st'.data)
      && (k != VersionKey(d, ns) ==> SameAt(st'.data, st.data, k))
  {
  }

  /**
   * A live counter is incremented by one; an absent or expired one is set
   * to 1.  Either way a fresh resolution afterwards reads the old counter
   * (cast to an integer) plus one.
   */
  lemma InvalidateBumpsCounter(st: MapperState, d: char, ns: string, now: int)
    requires Truthy(ns) && now < IntMax
    ensures Counter(Invalidated(st, d, ns, now).1.data, d, ns, now) == VInt(IntCast(Counter(st.data, d, ns, now)) + 1)
  {
  }

  /**
   * Invalidating one path changes only that path's segment: compared with a
   * fresh parse before, a parse after invalidate(ns) has the segment of ns
   * one higher and every other segment unchanged.
   */
  lemma InvalidationChangesOnlyItsSegment(index: map<string, Value>, data: Data, d: char, ns: string, key: string, now: int)
    requires d in key && Truthy(ns) && now < IntMax
    ensures var before := ParseKey(MapperState(map[], data), d, key, now);
      var after := ParseKey(Invalidated(MapperState(index, data), d, ns, now).1, d, key, now);
      var paths := Paths(Namespaces(key, d), d);
      forall i :: 0 <= i < |paths| ==>
        after.versions[i] == if paths[i] == ns then VInt(IntCast(before.versions[i]) + 1) else before.versions[i]
  {
    var st' := Invalidated(MapperState(index, data), d, ns, now).1;
    var paths := Paths(Namespaces(key, d), d);
    FreshParseReadsCounters(data, d, key, now);
    FreshParseReadsCounters(st'.data, d, key, now);
    forall i | 0 <= i < |paths|
      ensures Counter(st'.data, d, paths[i], now) ==
        if paths[i] == ns then VInt(IntCast(Counter(data, d, paths[i], now)) + 1) else Counter(data, d, paths[i], now)
    {
      if paths[i] == ns {
        InvalidateBumpsCounter(MapperState(index, data), d, ns, now);
      } else {
        if VersionKey(d, paths[i]) == VersionKey(d, ns) {
          VersionKeyInjective(d, paths[i], ns);
        }
        InvalidateTouchesOnlyItsCounter(MapperState(index, data), d, ns, now, VersionKey(d, paths[i]));
      }
    }
  }
  /** One more path resolves with one more call of getVersionNumber. */
  lemma VersionsOfExtend(st: MapperState, d: char, paths: seq<string>, i: nat, now: int)
    requires i < |paths|
    ensures var prev := VersionsOf(st, d, paths[..i], now);
      var step := VersionNumber(prev.st, d, paths[i], now);
      VersionsOf(st, d, paths[..i + 1], now) == Resolution(prev.versions + [step.0], step.1)
  {
    assert paths[..i + 1][..i] == paths[..i];
  }

  /** The loop's accumulated component, less its leading delimiter, is the next path. */
  lemma ComponentIsPath(namespaces: seq<string>, d: char, i: nat)
    requires i < |namespaces|
    ensures var component := if i == 0 then "" else [d] + Implode(namespaces[..i], d);
      (component + [d] + namespaces[i])[1..] == Paths(namespaces, d)[i]
      && component + [d] + namespaces[i] == [d] + Implode(namespaces[..i + 1], d)
  {
    assert namespaces[..i + 1] == namespaces[..i] + [namespaces[i]];
    if i > 0 {
      ImplodeSnoc(namespaces[..i], namespaces[i], d);
    }
  }

  /** Once the loop has resolved every path, its pieces make up the namespaced key. */
  lemma LoopResolvesAll(st0: MapperState, d: char, namespaces: seq<string>, leaf: string, now: int,
                        parts: seq<Value>, st: MapperState)
    requires namespaces != []
    requires VersionsOf(st0, d, Paths(namespaces, d)[..|namespaces|], now) == Resolution(parts, st)
    ensures NamespaceKey(st0, d, namespaces, leaf, now)
      == Parsed(Implode(Texts(parts), d) + [d] + Implode(namespaces, d) + [d] + leaf, parts, st)
  {
    assert Paths(namespaces, d)[..|namespaces|] == Paths(namespaces, d);
  }

  // -----------------------------------------------------------------------
  // The mapper object

  class KeyMapper {
    /** The last version seen for each namespace path. */
    var index: map<string, Value>
    var delimiter: string
    const cache: FauxCache

    /** setDelimiter only ever records a one-byte delimiter. */
    ghost predicate Valid()
      reads this`delimiter
    {
      ByteLength(delimiter) == 1
    }

    function Delimiter(): char
      reads this`delimiter
      requires Valid()
    {
      delimiter[0]
    }

    /** The index together with the backend's map. */
    function State(): MapperState
      reads this, cache
    {
      MapperState(index, cache.data)
    }

    constructor(cache: FauxCache, delimiter: string)
      requires ByteLength(delimiter) == 1
      ensures Valid() && this.cache == cache && this.delimiter == delimiter && index == map[]
    {
      this.cache := cache;
      this.delimiter := delimiter;
      index := map[];
    }

    /** setDelimiter: false stands for the exception the source throws. */
    method SetDelimiter(d: string) returns (ok: bool)
      modifies this`delimiter
      ensures ok == (ByteLength(d) == 1)
      ensures delimiter == if ok then d else old(delimiter)
      ensures ok ==> Valid()
    {
      if ByteLength(d) != 1 {
        return false;
      }
      delimiter := d;
      ok := true;
    }

    method Parse(key: string, now: int) returns (r: string)
      requires Valid()
      modifies this`index, cache
      ensures var p := ParseKey(old(State()), Delimiter(), key, now);
        r == p.key && State() == p.st
    {
      var d := delimiter[0];
      if d !in key {
        return key;
      }
      var parts := Explode(key, d);
      var leaf := parts[|parts| - 1];
      var namespaces := parts[..|parts| - 1];
      r := GetNamespaceKey(namespaces, leaf, now);
    }

    method GetNamespaceKey(namespaces: seq<string>, leaf: string, now: int) returns (r: string)
      requires Valid()
      modifies this`index, cache
      ensures var p := NamespaceKey(old(State()), Delimiter(), namespaces, leaf, now);
        r == p.key && State() == p.st
    {
      if namespaces == [] {
        return leaf;
      }
      var d := delimiter[0];
      ghost var st0 := State();
      var component := "";
      var parts: seq<Value> := [];
      var i := 0;
      while i < |namespaces|
        invariant 0 <= i <= |namespaces|
        invariant component == if i == 0 then "" else [d] + Implode(namespaces[..i], d)
        invariant VersionsOf(st0, d, Paths(namespaces, d)[..i], now) == Resolution(parts, State())
      {
        ghost var before := State();
        ComponentIsPath(namespaces, d, i);
        VersionsOfExtend(st0, d, Paths(namespaces, d), i, now);
        component := component + [d] + namespaces[i];
        var version := GetVersionNumber(component[1..], now);
        assert (version, State()) == VersionNumber(before, d, Paths(namespaces, d)[i], now);
        parts := parts + [version];
        i := i + 1;
      }
      assert namespaces[..i] == namespaces;
      assert component[1..] == Implode(namespaces, d);
      LoopResolvesAll(st0, d, namespaces, leaf, now, parts, State());
      r := Implode(Texts(parts), d) + [d] + component[1..] + [d] + leaf;
    }

    method GetVersionNumber(ns: string, now: int) returns (v: Value)
      requires Valid()
      modifies this`index, cache
      ensures (v, State()) == VersionNumber(old(State()), Delimiter(), ns, now)
    {
      if ns in index && index[ns] != VNull {
        return index[ns];
      }
      var versionKey := VersionKey(delimiter[0], ns);
      var version, _ := cache.Fetch(versionKey, now, false);
      if version == VBool(false) {
        var _ := cache.Add(versionKey, VInt(0), 0, now);
        index := index[ns := VInt(0)];
      } else {
        index := index[ns := version];
      }
      v := index[ns];
    }

    method Invalidate(ns: string, now: int) returns (ok: bool)
      requires Valid()
      modifies this`index, cache
      ensures (ok, State()) == Invalidated(old(State()), Delimiter(), ns, now)
    {
      if ns == "" || ns == "0" {
        return false;
      }
      var versionKey := VersionKey(delimiter[0], ns);
      var present := cache.Exists(versionKey, now);
      if present {
        var n, _ := cache.Inc(versionKey, 1, now);
        index := index[ns := VInt(n)];
      } else {
        var _ := cache.Store(versionKey, VInt(1), 0, now);
      }
      index := map[];
      ok := true;
    }
  }

  /** new KeyMapper($cache, $delimiter): null stands for the exception setDelimiter throws. */
  method NewKeyMapper(cache: FauxCache, delimiter: string) returns (m: KeyMapper?)
    ensures m == null <==> ByteLength(delimiter) != 1
    ensures m != null ==> fresh(m) && m.Valid() && m.cache == cache && m.delimiter == delimiter && m.index == map[]
  {
    if ByteLength(delimiter) != 1 {
      return null;
    }
    m := new KeyMapper(cache, delimiter);
  }
}
